/** Reading a text one character at a time: each stretch from an `&` to the next `;` is given
    to a replacement function, everything else is copied. */
module ReferenceScan {

  /** What has been written so far, and the stretch read since an `&` that is still open. */
  datatype State = State(out: string, pending: string)

  const START: State := State("", "")

  function Feed(f: string -> string, st: State, c: char): State {
    if st.pending == "" then
      if c == '&' then State(st.out, [c]) else State(st.out + [c], "")
    else if c == ';' then State(st.out + f(st.pending + [c]), "")
    else State(st.out, st.pending + [c])
  }

  function FeedAll(f: string -> string, st: State, s: string): State
    decreases |s|
  {
    if s == [] then st else FeedAll(f, Feed(f, st, s[0]), s[1..])
  }

  function Finish(st: State): string {
    st.out + st.pending
  }

  function Scan(f: string -> string, s: string): string {
    Finish(FeedAll(f, START, s))
  }

  /** The text leaves an `&` open. */
  predicate EndsOpen(f: string -> string, s: string) {
    FeedAll(f, START, s).pending != ""
  }

  /** A stretch that is read as one reference. */
  predicate IsReference(e: string) {
    |e| >= 2 && e[0] == '&' && e[|e| - 1] == ';' && ';' !in e[..|e| - 1]
  }

  lemma {:induction false} FeedConcat(f: string -> string, st: State, a: string, b: string)
    ensures FeedAll(f, st, a + b) == FeedAll(f, FeedAll(f, st, a), b)
    decreases |a|
  {
    if a == [] {
      assert a + b == b;
    } else {
      assert (a + b)[1..] == a[1..] + b;
      FeedConcat(f, Feed(f, st, a[0]), a[1..], b);
    }
  }

  /** What was written before plays no part in what is written next. */
  lemma {:induction false} FeedFrame(f: string -> string, o: string, st: State, s: string)
    ensures FeedAll(f, State(o + st.out, st.pending), s)
         == State(o + FeedAll(f, st, s).out, FeedAll(f, st, s).pending)
    decreases |s|
  {
    if s != [] {
      var next := Feed(f, st, s[0]);
      assert Feed(f, State(o + st.out, st.pending), s[0]) == State(o + next.out, next.pending);
      FeedFrame(f, o, next, s[1..]);
    }
  }

  lemma {:induction false} FeedPlain(f: string -> string, o: string, a: string)
    requires '&' !in a
    ensures FeedAll(f, State(o, ""), a) == State(o + a, "")
    decreases |a|
  {
    if a != [] {
      FeedPlain(f, o + [a[0]], a[1..]);
      assert o + a == o + [a[0]] + a[1..];
    } else {
      assert o + a == o;
    }
  }

  lemma {:induction false} FeedOpen(f: string -> string, o: string, pending: string, a: string)
    requires pending != "" && ';' !in a
    ensures FeedAll(f, State(o, pending), a) == State(o, pending + a)
    decreases |a|
  {
    if a != [] {
      FeedOpen(f, o, pending + [a[0]], a[1..]);
      assert pending + a == pending + [a[0]] + a[1..];
    } else {
      assert pending + a == pending;
    }
  }

  lemma FeedUnclosed(f: string -> string, o: string, a: string)
    requires a != [] && a[0] == '&' && ';' !in a
    ensures FeedAll(f, State(o, ""), a) == State(o, a)
  {
    FeedOpen(f, o, ['&'], a[1..]);
    assert ['&'] + a[1..] == a;
  }

  /** Reading up to the closing `;` while an `&` is open. */
  lemma FeedClose(f: string -> string, o: string, pending: string, a: string)
    requires pending != "" && ';' !in a
    ensures FeedAll(f, State(o, pending), a + [';']) == State(o + f(pending + a + [';']), "")
  {
    FeedConcat(f, State(o, pending), a, [';']);
    FeedOpen(f, o, pending, a);
    assert FeedAll(f, State(o, pending + a), [';']) == Feed(f, State(o, pending + a), ';');
  }

  lemma FeedReference(f: string -> string, o: string, e: string)
    requires IsReference(e)
    ensures FeedAll(f, State(o, ""), e) == State(o + f(e), "")
  {
    var body := e[1..|e| - 1];
    assert e[1..] == body + [';'];
    assert forall i :: 0 <= i < |body| ==> body[i] == e[..|e| - 1][i + 1];
    FeedClose(f, o, ['&'], body);
    assert ['&'] + body + [';'] == e;
  }

  /** When no replacement lengthens its reference, neither does the scan, and a scan keeps
      the length only by leaving the text as it is. */
  lemma {:induction false} FeedNeverLengthens(f: string -> string, st: State, s: string)
    requires forall e :: |e| >= 2 ==> |f(e)| < |e| || f(e) == e
    ensures |Finish(FeedAll(f, st, s))| <= |Finish(st)| + |s|
    ensures |Finish(FeedAll(f, st, s))| == |Finish(st)| + |s| ==> Finish(FeedAll(f, st, s)) == Finish(st) + s
    decreases |s|
  {
    if s == [] {
      assert Finish(st) + s == Finish(st);
    } else {
      var next := Feed(f, st, s[0]);
      FeedNeverLengthens(f, next, s[1..]);
      assert |Finish(next)| <= |Finish(st)| + 1;
      assert |Finish(next)| == |Finish(st)| + 1 ==> Finish(next) == Finish(st) + [s[0]];
      assert Finish(st) + s == Finish(st) + [s[0]] + s[1..];
    }
  }

  /** A scan can be cut after any prefix that leaves no `&` open. */
  lemma CutClosed(f: string -> string, p: string, t: string)
    requires !EndsOpen(f, p)
    ensures Scan(f, p + t) == Scan(f, p) + Scan(f, t)
  {
    FeedConcat(f, START, p, t);
    var st := FeedAll(f, START, p);
    FeedFrame(f, st.out, START, t);
    assert st.out + "" == st.out;
  }

  /** After a prefix that leaves an `&` open, the next reference is only a part of a longer one. */
  lemma OpenSwallows(f: string -> string, p: string, e: string)
    requires EndsOpen(f, p) && IsReference(e)
    ensures Scan(f, p + e) == FeedAll(f, START, p).out + f(FeedAll(f, START, p).pending + e)
  {
    FeedConcat(f, START, p, e);
    var st := FeedAll(f, START, p);
    var n := |e| - 1;
    assert e == e[..n] + [';'];
    FeedClose(f, st.out, st.pending, e[..n]);
    assert st.pending + e[..n] + [';'] == st.pending + e;
  }

  // ---------- Encoded texts ----------

  /** One character as itself, a reference that stands for a character, or one that is kept. */
  datatype Piece = Literal(c: char) | Reference(text: string, c: char) | Verbatim(text: string)

  function Text(piece: Piece): string {
    if piece.Literal? then [piece.c] else piece.text
  }

  function Meaning(piece: Piece): string {
    if piece.Verbatim? then piece.text else [piece.c]
  }

  predicate Readable(f: string -> string, piece: Piece) {
    if piece.Literal? then piece.c != '&' else IsReference(piece.text) && f(piece.text) == Meaning(piece)
  }

  function Encoded(pieces: seq<Piece>): string {
    if pieces == [] then "" else Text(pieces[0]) + Encoded(pieces[1..])
  }

  function Plain(pieces: seq<Piece>): string {
    if pieces == [] then "" else Meaning(pieces[0]) + Plain(pieces[1..])
  }

  lemma FeedPiece(f: string -> string, o: string, piece: Piece)
    requires Readable(f, piece)
    ensures FeedAll(f, State(o, ""), Text(piece)) == State(o + Meaning(piece), "")
  {
    if piece.Literal? {
      FeedPlain(f, o, [piece.c]);
    } else {
      FeedReference(f, o, piece.text);
    }
  }

  lemma {:induction false} FeedPieces(f: string -> string, o: string, pieces: seq<Piece>)
    requires forall i :: 0 <= i < |pieces| ==> Readable(f, pieces[i])
    ensures FeedAll(f, State(o, ""), Encoded(pieces)) == State(o + Plain(pieces), "")
    decreases |pieces|
  {
    if pieces == [] {
      assert o + "" == o;
    } else {
      FeedConcat(f, State(o, ""), Text(pieces[0]), Encoded(pieces[1..]));
      FeedPiece(f, o, pieces[0]);
      FeedPieces(f, o + Meaning(pieces[0]), pieces[1..]);
      assert o + Meaning(pieces[0]) + Plain(pieces[1..]) == o + (Meaning(pieces[0]) + Plain(pieces[1..]));
    }
  }

  /** An `&` that nothing closes, and all that follows it. */
  predicate IsOpen(tail: string) {
    tail == "" || (tail[0] == '&' && ';' !in tail)
  }

  ghost predicate AllReadable(f: string -> string, pieces: seq<Piece>) {
    forall i :: 0 <= i < |pieces| ==> Readable(f, pieces[i])
  }

  lemma ScanPieces(f: string -> string, pieces: seq<Piece>, tail: string)
    requires AllReadable(f, pieces) && IsOpen(tail)
    ensures Scan(f, Encoded(pieces) + tail) == Plain(pieces) + tail
  {
    FeedPieces(f, "", pieces);
    assert "" + Plain(pieces) == Plain(pieces);
    FeedConcat(f, START, Encoded(pieces), tail);
    if tail != "" { FeedUnclosed(f, Plain(pieces), tail); }
  }
}

/** The scanning decoder of character references
    (PopcornKit/Sources/Resources/HtmlDecoding.swift; section 5.3 of HTML 4.01).

    The table of named references is a parameter: every result holds for all tables, or for
    all tables of the stated shape. */
module HtmlDecoding {
  import opened Sequences
  import opened Numerals
  import opened ReferenceScan

  type Table = map<string, char>

  // ---------- One reference ----------

  function DigitValue(c: char): int {
    if '0' <= c <= '9' then c as int - '0' as int
    else if 'a' <= c <= 'z' then c as int - 'a' as int + 10
    else if 'A' <= c <= 'Z' then c as int - 'A' as int + 10
    else 36
  }

  function DigitsValue(s: string, base: int): (r: Option<int>)
    requires base > 0
    ensures r.Some? ==> r.value >= 0
  {
    if s == [] then Some(0)
    else
      var d := DigitValue(s[|s| - 1]);
      match DigitsValue(s[..|s| - 1], base)
      case None => None
      case Some(n) => if 0 <= d < base then Some(n * base + d) else None
  }

  /** Swift's `UInt32(_:radix:)`: an optional sign, at least one digit, no overflow; a negative
      number is accepted only when it is zero. */
  function ParseUInt32(s: string, base: int): Option<int>
    requires base > 0
  {
    var signed := s != [] && s[0] in "+-";
    var digits := if signed then s[1..] else s;
    if digits == [] then None
    else match DigitsValue(digits, base)
      case None => None
      case Some(n) => if n >= 0x1_0000_0000 || (signed && s[0] == '-' && n != 0) then None else Some(n)
  }

  function DecodeNumeric(s: string, base: int): Option<char>
    requires base > 0
  {
    match ParseUInt32(s, base)
    case None => None
    case Some(n) => if 0 <= n < 0xD800 || 0xE000 <= n < 0x11_0000 then Some(n as char) else None
  }

  function DecodeEntity(table: Table, entity: string): Option<char> {
    if "&#x" < entity || "&#X" < entity then DecodeNumeric(entity[3..|entity| - 1], 16)
    else if "&#" < entity then DecodeNumeric(entity[2..|entity| - 1], 10)
    else if entity in table then Some(table[entity]) else None
  }

  /** What an entity is replaced by: its character, or itself when it is not valid. */
  function Replacement(table: Table, entity: string): string {
    match DecodeEntity(table, entity)
    case Some(c) => [c]
    case None => entity
  }

  function Decoder(table: Table): string -> string {
    entity => Replacement(table, entity)
  }

  function Decode(table: Table, s: string): string {
    Scan(Decoder(table), s)
  }

  // ---------- The loop ----------

  /** The position of the first `c`, or the length when there is none. */
  function IndexOf(s: string, c: char): (i: nat)
    ensures i <= |s| && c !in s[..i] && (i < |s| ==> s[i] == c)
  {
    if s == [] || s[0] == c then 0 else 1 + IndexOf(s[1..], c)
  }

  /** After reading the first `position` characters, `result` is written and nothing is open. */
  ghost predicate HasRead(f: string -> string, s: string, position: nat, result: string)
    requires position <= |s|
  {
    FeedAll(f, START, s[..position]) == State(result, "")
  }

  lemma ReadPlain(f: string -> string, s: string, position: nat, amp: nat, result: string)
    requires position <= |s| && HasRead(f, s, position, result)
    requires amp == position + IndexOf(s[position..], '&')
    ensures HasRead(f, s, amp, result + s[position..amp])
    ensures amp == |s| ==> Scan(f, s) == result + s[position..]
  {
    assert s[..amp] == s[..position] + s[position..amp];
    assert s[position..amp] == s[position..][..amp - position];
    FeedConcat(f, START, s[..position], s[position..amp]);
    FeedPlain(f, result, s[position..amp]);
    assert s[..|s|] == s;
  }

  lemma ReadEntity(f: string -> string, s: string, amp: nat, semi: nat, result: string)
    requires amp < |s| && s[amp] == '&' && HasRead(f, s, amp, result)
    requires semi == amp + IndexOf(s[amp..], ';') < |s|
    ensures HasRead(f, s, semi + 1, result + f(s[amp..semi + 1]))
  {
    var e := s[amp..semi + 1];
    assert s[..semi + 1] == s[..amp] + e;
    assert e[..|e| - 1] == s[amp..][..semi - amp];
    FeedConcat(f, START, s[..amp], e);
    FeedReference(f, result, e);
  }

  lemma ReadOpen(f: string -> string, s: string, amp: nat, result: string)
    requires amp < |s| && s[amp] == '&' && HasRead(f, s, amp, result)
    requires amp + IndexOf(s[amp..], ';') == |s|
    ensures Scan(f, s) == result + s[amp..]
  {
    assert s == s[..amp] + s[amp..];
    assert s[amp..] == s[amp..][..|s| - amp];
    FeedConcat(f, START, s[..amp], s[amp..]);
    FeedUnclosed(f, result, s[amp..]);
  }

  /** The decoding loop. */
  method RemovingHtmlEncoding(table: Table, s: string) returns (result: string)
    ensures result == Decode(table, s)
  {
    ghost var f := Decoder(table);
    result := "";
    var position := 0;
    while true
      invariant 0 <= position <= |s| && HasRead(f, s, position, result)
      decreases |s| - position
    {
      var amp := position + IndexOf(s[position..], '&');
      ReadPlain(f, s, position, amp, result);
      if amp == |s| {
        break;
      }
      result := result + s[position..amp];
      position := amp;
      var semi := position + IndexOf(s[position..], ';');
      if semi == |s| {
        ReadOpen(f, s, amp, result);
        break;
      }
      ReadEntity(f, s, amp, semi, result);
      var entity := s[position..semi + 1];
      assert f(entity) == Replacement(table, entity);
      position := semi + 1;
      match DecodeEntity(table, entity)
      case Some(decoded) => result := result + [decoded];
      case None => result := result + entity;
    }
    result := result + s[position..];
  }

  // ---------- What decoding guarantees ----------

  /** Decoding never lengthens a text, and keeps its length only by leaving it as it is. */
  lemma DecodeNeverLengthens(table: Table, s: string)
    ensures |Decode(table, s)| <= |s|
    ensures |Decode(table, s)| == |s| ==> Decode(table, s) == s
  {
    FeedNeverLengthens(Decoder(table), START, s);
  }

  lemma NotANumber(s: string, base: int, i: nat)
    requires 0 < base <= 36 && i < |s| && s[i] == '&'
    ensures DecodeNumeric(s, base).None?
  {
    if s[0] in "+-" {
      OnlyDigits(s[1..], base, i - 1);
    } else {
      OnlyDigits(s, base, i);
    }
  }

  /** Tables, like the program's, whose names hold no `&` but the first. */
  ghost predicate Shaped(table: Table) {
    forall name :: name in table ==> name != "" && '&' !in name[1..]
  }

  lemma InnerAmpersand(table: Table, e: string, i: nat)
    requires Shaped(table) && 1 <= i < |e| - 1 && e[0] == '&' && e[i] == '&'
    ensures DecodeEntity(table, e).None?
  {
    var n := |e| - 1;
    if "&#x" < e || "&#X" < e {
      assert e[3..n][i - 3] == '&';
      NotANumber(e[3..n], 16, i - 3);
    } else if "&#" < e {
      assert e[2..n][i - 2] == '&';
      NotANumber(e[2..n], 10, i - 2);
    } else {
      assert e[1..][i - 1] == '&';
    }
  }

  const AMP: string := "&amp;"

  lemma PendingStarts(f: string -> string, s: string)
    ensures FeedAll(f, START, s).pending != "" ==> FeedAll(f, START, s).pending[0] == '&'
  {
    PendingStartsFrom(f, START, s);
  }

  lemma {:induction false} PendingStartsFrom(f: string -> string, st: State, s: string)
    requires st.pending != "" ==> st.pending[0] == '&'
    ensures FeedAll(f, st, s).pending != "" ==> FeedAll(f, st, s).pending[0] == '&'
    decreases |s|
  {
    if s != [] {
      PendingStartsFrom(f, Feed(f, st, s[0]), s[1..]);
    }
  }

  lemma DecodeAmp(table: Table)
    requires AMP in table && table[AMP] == '&'
    ensures Decode(table, AMP) == "&"
  {
    assert IsReference(AMP) by { assert AMP[..4] == "&amp"; }
    FeedReference(Decoder(table), "", AMP);
    assert AMP[1] == 'a';
  }

  /** A prefix can be decoded on its own, whatever follows, if and only if it leaves no `&` open. */
  lemma CutsExactlyWhenClosed(table: Table, p: string)
    requires Shaped(table) && AMP in table && table[AMP] == '&'
    ensures (forall t :: Decode(table, p + t) == Decode(table, p) + Decode(table, t))
       <==> !EndsOpen(Decoder(table), p)
  {
    var f := Decoder(table);
    if EndsOpen(f, p) {
      var st := FeedAll(f, START, p);
      assert IsReference(AMP) by { assert AMP[..4] == "&amp"; }
      OpenSwallows(f, p, AMP);
      PendingStarts(f, p);
      InnerAmpersand(table, st.pending + AMP, |st.pending|);
      DecodeAmp(table);
      assert |Decode(table, p + AMP)| == |Decode(table, p)| + 5;
    } else {
      forall t ensures Decode(table, p + t) == Decode(table, p) + Decode(table, t) {
        CutClosed(f, p, t);
      }
    }
  }

  // ---------- Decoding inverts encoding ----------

  /** A piece of text the decoder reads as its meaning: any character but `&` as itself, a
      reference, named or numeric, as the character it stands for, and a reference that is not valid
      as it is. */
  predicate Decodable(table: Table, piece: Piece) {
    match piece
    case Literal(c) => c != '&'
    case Reference(text, c) => IsReference(text) && DecodeEntity(table, text) == Some(c)
    case Verbatim(text) => IsReference(text) && DecodeEntity(table, text).None?
  }

  ghost predicate AllDecodable(table: Table, pieces: seq<Piece>) {
    forall i :: 0 <= i < |pieces| ==> Decodable(table, pieces[i])
  }

  lemma DecodableIsReadable(table: Table, pieces: seq<Piece>)
    requires AllDecodable(table, pieces)
    ensures AllReadable(Decoder(table), pieces)
  {}

  /** Decoding gives the meaning of a text made of such pieces and perhaps an `&` left open at the
      end. So it inverts every encoding that replaces each `&`, and any other characters, by
      references the decoder accepts, and keeps what it does not accept. */
  lemma DecodeEncoded(table: Table, pieces: seq<Piece>, tail: string)
    requires AllDecodable(table, pieces) && IsOpen(tail)
    ensures Decode(table, Encoded(pieces) + tail) == Plain(pieces) + tail
  {
    DecodableIsReadable(table, pieces);
    ScanPieces(Decoder(table), pieces, tail);
  }

  /** A reference that is not valid is copied. */
  lemma InvalidIsKept(table: Table, e: string)
    requires IsReference(e) && DecodeEntity(table, e).None?
    ensures Decode(table, e) == e
  {
    FeedReference(Decoder(table), "", e);
  }

  function PieceOf(table: Table, e: string): Piece {
    match DecodeEntity(table, e)
    case Some(c) => Reference(e, c)
    case None => Verbatim(e)
  }

  /** How a text divides into pieces and an open end. */
  ghost predicate Divides(table: Table, s: string, pieces: seq<Piece>, tail: string) {
    AllDecodable(table, pieces) && IsOpen(tail) && s == Encoded(pieces) + tail
  }

  lemma DividesCons(table: Table, piece: Piece, s: string, pieces: seq<Piece>, tail: string)
    requires Divides(table, s, pieces, tail) && Decodable(table, piece)
    ensures Divides(table, Text(piece) + s, [piece] + pieces, tail)
  {
    EncodedCons(piece, pieces, tail);
  }

  lemma EncodedCons(piece: Piece, pieces: seq<Piece>, tail: string)
    ensures Encoded([piece] + pieces) + tail == Text(piece) + (Encoded(pieces) + tail)
  {
    assert ([piece] + pieces)[1..] == pieces;
  }

  lemma FirstReference(s: string, n: nat)
    requires n < |s| && s[0] == '&' && s[n] == ';' && ';' !in s[..n]
    ensures IsReference(s[..n + 1]) && s == s[..n + 1] + s[n + 1..]
  {
    assert s[..n + 1][..n] == s[..n];
  }

  /** Every text divides so: `DecodeEncoded` says what decoding gives for all of them. */
  lemma {:induction false} EveryTextDivides(table: Table, s: string)
    ensures exists pieces, tail :: Divides(table, s, pieces, tail)
    decreases |s|
  {
    if s == "" {
      assert Divides(table, s, [], "");
    } else if s[0] != '&' {
      EveryTextDivides(table, s[1..]);
      var pieces, tail :| Divides(table, s[1..], pieces, tail);
      DividesCons(table, Literal(s[0]), s[1..], pieces, tail);
      assert Text(Literal(s[0])) + s[1..] == s;
    } else {
      var n := IndexOf(s, ';');
      if n == |s| {
        assert s[..n] == s;
        assert Divides(table, s, [], s);
      } else {
        FirstReference(s, n);
        EveryTextDivides(table, s[n + 1..]);
        var pieces, tail :| Divides(table, s[n + 1..], pieces, tail);
        DividesCons(table, PieceOf(table, s[..n + 1]), s[n + 1..], pieces, tail);
      }
    }
  }

  // Numeric references exist for every character, so nothing is out of reach of the theorem.

  lemma DigitCharValue(d: nat)
    requires d < 16
    ensures DigitValue(DigitChar(d)) == d
  {}

  lemma DigitsValueOf(s: string, c: char, base: int)
    requires base > 0
    ensures DigitsValue(s + [c], base) ==
      match DigitsValue(s, base)
      case None => None
      case Some(n) => if 0 <= DigitValue(c) < base then Some(n * base + DigitValue(c)) else None
  {
    var t := s + [c];
    assert t[..|t| - 1] == s;
  }

  lemma DigitsValueSnoc(s: string, d: nat, base: int)
    requires (base == 10 || base == 16) && d < base && DigitsValue(s, base).Some?
    ensures DigitsValue(s + [DigitChar(d)], base) == Some(DigitsValue(s, base).value * base + d)
  {
    DigitCharValue(d);
    DigitsValueOf(s, DigitChar(d), base);
  }

  lemma {:induction false} DigitsRead(n: nat, base: int)
    requires base == 10 || base == 16
    ensures DigitsValue(Digits(n, base), base) == Some(n)
  {
    if n < base {
      DigitsValueSnoc("", n, base);
      assert "" + [DigitChar(n)] == [DigitChar(n)];
    } else {
      var q, d := if base == 10 then n / 10 else n / 16, if base == 10 then n % 10 else n % 16;
      DigitsRead(q, base);
      DigitsValueSnoc(Digits(q, base), d, base);
    }
  }

  predicate IsScalar(n: int) {
    0 <= n < 0xD800 || 0xE000 <= n < 0x11_0000
  }

  /** A number in digits is accepted exactly when it is a Unicode scalar, and then stands for it. */
  lemma NumericReadExactlyWhen(n: nat, base: int)
    requires base == 10 || base == 16
    ensures DecodeNumeric(Digits(n, base), base) == if IsScalar(n) then Some(n as char) else None
  {
    DigitsRead(n, base);
    assert IsDigit(Digits(n, base)[0]);
  }

  lemma NumericRead(c: char, base: int)
    requires base == 10 || base == 16
    ensures DecodeNumeric(Digits(c as int, base), base) == Some(c)
  {
    NumericReadExactlyWhen(c as int, base);
  }

  lemma SignDropped(sign: char, d: string, base: int)
    requires base > 0 && d != [] && d[0] !in "+-" && (sign == '+' || sign == '-')
    ensures var n := DigitsValue(d, base);
            ParseUInt32([sign] + d, base)
              == if n.None? || (sign == '-' && n.value != 0) then None else ParseUInt32(d, base)
  {
    assert ([sign] + d)[1..] == d && sign in "+-" by { assert "+-"[0] == '+' && "+-"[1] == '-'; }
  }

  lemma DigitIsNoSign(c: char)
    requires IsDigit(c)
    ensures c !in "+-"
  {}

  /** A sign is allowed, before zero even a negative one. */
  lemma SignedRead(sign: char, n: nat, base: int)
    requires (base == 10 || base == 16) && (sign == '+' || sign == '-')
    ensures DecodeNumeric([sign] + Digits(n, base), base)
         == if sign == '-' && n != 0 then None else DecodeNumeric(Digits(n, base), base)
  {
    DigitsRead(n, base);
    DigitIsNoSign(Digits(n, base)[0]);
    SignDropped(sign, Digits(n, base), base);
  }

  function UpperDigit(c: char): char {
    if 'a' <= c <= 'f' then (c as int - 32) as char else c
  }

  lemma {:induction false} UpperDigitsRead(s: string, t: string, base: int)
    requires base > 0 && |s| == |t| && forall i :: 0 <= i < |s| ==> t[i] == UpperDigit(s[i])
    ensures DigitsValue(t, base) == DigitsValue(s, base)
  {
    if s != [] { UpperDigitsRead(s[..|s| - 1], t[..|t| - 1], base); }
  }

  lemma UpperRead(n: nat, d: string, t: string)
    requires d == Digits(n, 16) && |t| == |d| && forall i :: 0 <= i < |d| ==> t[i] == UpperDigit(d[i])
    ensures DecodeNumeric(t, 16) == DecodeNumeric(d, 16)
  {
    UpperDigitsRead(d, t, 16);
    DigitIsNoSign(d[0]);
    UpperIsNoSign(d[0]);
  }

  lemma UpperIsNoSign(c: char)
    requires IsDigit(c)
    ensures UpperDigit(c) !in "+-"
  {}

  lemma UpperHexEntity(table: Table, d: string)
    requires d != []
    ensures DecodeEntity(table, "&#X" + d + [';']) == DecodeNumeric(d, 16)
  {
    var e := "&#X" + d + [';'];
    assert e[3..|e| - 1] == d;
  }

  /** Hexadecimal digits may be upper case, and so may the `x` of a reference. */
  lemma CaseIsIgnored(table: Table, n: nat, t: string)
    requires var d := Digits(n, 16); |t| == |d| && forall i :: 0 <= i < |d| ==> t[i] == UpperDigit(d[i])
    ensures DecodeEntity(table, "&#x" + t + [';']) == DecodeEntity(table, "&#X" + t + [';'])
         == if IsScalar(n) then Some(n as char) else None
  {
    UpperRead(n, Digits(n, 16), t);
    NumericReadExactlyWhen(n, 16);
    HexEntity(table, t);
    UpperHexEntity(table, t);
  }

  /** Anything but digits of the base, after a sign, is not a number. */
  lemma {:induction false} OnlyDigits(s: string, base: int, i: nat)
    requires 0 < base <= 36 && i < |s| && DigitValue(s[i]) >= base
    ensures DigitsValue(s, base).None?
  {
    if i < |s| - 1 { OnlyDigits(s[..|s| - 1], base, i); }
  }

  lemma ReferenceShape(prefix: string, d: string)
    requires prefix != [] && prefix[0] == '&' && ';' !in prefix && forall i :: 0 <= i < |d| ==> IsDigit(d[i])
    ensures IsReference(prefix + d + [';'])
  {
    var e := prefix + d + [';'];
    assert e[..|e| - 1] == prefix + d;
  }

  lemma DecimalEntity(table: Table, d: string)
    requires d != [] && IsDigit(d[0])
    ensures DecodeEntity(table, "&#" + d + [';']) == DecodeNumeric(d, 10)
  {
    var e := "&#" + d + [';'];
    assert e[2] == d[0];
    assert e[2..|e| - 1] == d;
  }

  lemma HexEntity(table: Table, d: string)
    requires d != []
    ensures DecodeEntity(table, "&#x" + d + [';']) == DecodeNumeric(d, 16)
  {
    var e := "&#x" + d + [';'];
    assert e[3..|e| - 1] == d;
  }

  /** Every character has a decimal and a hexadecimal reference the decoder accepts. */
  lemma NumericReferencesAreDecodable(table: Table, c: char)
    ensures Decodable(table, Reference("&#" + Digits(c as int, 10) + [';'], c))
    ensures Decodable(table, Reference("&#x" + Digits(c as int, 16) + [';'], c))
  {
    NumericRead(c, 10);
    NumericRead(c, 16);
    ReferenceShape("&#", Digits(c as int, 10));
    ReferenceShape("&#x", Digits(c as int, 16));
    DecimalEntity(table, Digits(c as int, 10));
    HexEntity(table, Digits(c as int, 16));
  }

  /** A reference that does not begin with `&#` stands for what the table gives for it, if anything. */
  lemma NamedExactlyWhen(table: Table, name: string, c: char)
    requires !("&#" <= name)
    ensures DecodeEntity(table, name) == Some(c) <==> name in table && table[name] == c
  {
    PrefixOfPrefix("&#", "&#x", name);
    PrefixOfPrefix("&#", "&#X", name);
  }

  lemma PrefixOfPrefix(a: string, b: string, c: string)
    ensures a <= b && b <= c ==> a <= c
  {}

  /** The references predefined by section 4.6 of XML 1.0, the first entries of the program's table. */
  const XML_ENTITIES: Table := map[
    "&quot;" := '"', "&amp;" := '&', "&apos;" := '\'', "&lt;" := '<', "&gt;" := '>'
  ]

  lemma XmlEntitiesAreDecodable(name: string)
    requires name in XML_ENTITIES
    ensures Decodable(XML_ENTITIES, Reference(name, XML_ENTITIES[name]))
    ensures Shaped(XML_ENTITIES)
  {
    forall n | n in XML_ENTITIES ensures n != "" && '&' !in n[1..] { PlainName(n); }
    PlainName(name);
  }

  lemma PlainName(n: string)
    requires n in XML_ENTITIES
    ensures IsReference(n) && '&' !in n[1..] && n[1] != '#'
  {
    var k := |n| - 1;
    if n == "&quot;" { assert n[..k] == "&quot" && n[1..] == "quot;"; }
    else if n == "&amp;" { assert n[..k] == "&amp" && n[1..] == "amp;"; }
    else if n == "&apos;" { assert n[..k] == "&apos" && n[1..] == "apos;"; }
    else if n == "&lt;" { assert n[..k] == "&lt" && n[1..] == "lt;"; }
    else { assert n[..k] == "&gt" && n[1..] == "gt;"; }
  }
}
