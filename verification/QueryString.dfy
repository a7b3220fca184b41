/** The query printer of PopcornKit/Sources/HttpClient/HttpClient.swift and the query parser
    of PopcornKit/Sources/Helpers/String+Extension.swift. */
module QueryString {
  import opened Sequences
  import opened PercentEncoding
  import Sorting

  /** A request parameter. A dictionary holds its entries in iteration order; numbers and
      other scalars are held by their description. */
  datatype Value =
    | Dictionary(entries: seq<Entry>)
    | Array(items: seq<Value>)
    | Boolean(flag: bool)
    | Other(description: string)

  datatype Entry = Entry(key: string, value: Value)

  function Subscript(key: string, nested: string): string {
    key + "[" + nested + "]"
  }

  // ---------- What a parameter tree means: its leaves with their bracketed paths ----------

  function Leaves(key: string, value: Value): seq<(string, string)>
    decreases value, 0
  {
    match value
    case Dictionary(entries) => EntryLeaves(key, entries)
    case Array(items) => ItemLeaves(key, items)
    case Boolean(flag) => [(key, if flag then "1" else "0")]
    case Other(description) => [(key, description)]
  }

  function EntryLeaves(key: string, entries: seq<Entry>): seq<(string, string)>
    decreases entries, 1
  {
    if entries == [] then []
    else
      var last := entries[|entries| - 1];
      EntryLeaves(key, entries[..|entries| - 1]) + Leaves(Subscript(key, last.key), last.value)
  }

  function ItemLeaves(key: string, items: seq<Value>): seq<(string, string)>
    decreases items, 1
  {
    if items == [] then []
    else ItemLeaves(key, items[..|items| - 1]) + Leaves(key + "[]", items[|items| - 1])
  }

  function TopLeaves(keys: seq<string>, parameters: map<string, Value>): seq<(string, string)>
    requires forall i :: 0 <= i < |keys| ==> keys[i] in parameters
  {
    if keys == [] then []
    else
      var key := keys[|keys| - 1];
      TopLeaves(keys[..|keys| - 1], parameters) + Leaves(key, parameters[key])
  }

  // ---------- Printing ----------

  function EscapePair(pair: (string, string)): (string, string) {
    (Escaped(pair.0), Escaped(pair.1))
  }

  function EscapePairs(pairs: seq<(string, string)>): (r: seq<(string, string)>)
    ensures |r| == |pairs|
    ensures forall i :: 0 <= i < |r| ==> r[i] == (Escaped(pairs[i].0), Escaped(pairs[i].1))
  {
    Mapped(pairs, EscapePair)
  }

  lemma EscapePairsConcat(a: seq<(string, string)>, b: seq<(string, string)>)
    ensures EscapePairs(a + b) == EscapePairs(a) + EscapePairs(b)
  {
    MappedConcat(a, b, EscapePair);
  }

  function Print(components: seq<(string, string)>): string {
    Join(seq(|components|, i requires 0 <= i < |components| => components[i].0 + ['='] + components[i].1), '&')
  }

  /** `segment` divides a text into characters; nothing is known of it but that it loses nothing. */
  ghost predicate Segments(segment: string -> seq<string>) {
    forall s :: Flatten(segment(s)) == s
  }

  lemma NextEntry(key: string, entries: seq<Entry>, i: nat)
    requires i < |entries|
    ensures EscapePairs(EntryLeaves(key, entries[..i + 1]))
         == EscapePairs(EntryLeaves(key, entries[..i])) + EscapePairs(Leaves(Subscript(key, entries[i].key), entries[i].value))
  {
    assert entries[..i + 1][..i] == entries[..i];
    EscapePairsConcat(EntryLeaves(key, entries[..i]), Leaves(Subscript(key, entries[i].key), entries[i].value));
  }

  lemma NextItem(key: string, items: seq<Value>, i: nat)
    requires i < |items|
    ensures EscapePairs(ItemLeaves(key, items[..i + 1]))
         == EscapePairs(ItemLeaves(key, items[..i])) + EscapePairs(Leaves(key + "[]", items[i]))
  {
    assert items[..i + 1][..i] == items[..i];
    EscapePairsConcat(ItemLeaves(key, items[..i]), Leaves(key + "[]", items[i]));
  }

  lemma NextKey(keys: seq<string>, parameters: map<string, Value>, i: nat)
    requires i < |keys| && forall j :: 0 <= j < |keys| ==> keys[j] in parameters
    ensures EscapePairs(TopLeaves(keys[..i + 1], parameters))
         == EscapePairs(TopLeaves(keys[..i], parameters)) + EscapePairs(Leaves(keys[i], parameters[keys[i]]))
  {
    assert keys[..i + 1][..i] == keys[..i];
    EscapePairsConcat(TopLeaves(keys[..i], parameters), Leaves(keys[i], parameters[keys[i]]));
  }

  /** The recursive printer of one parameter: one component per leaf, in order. */
  method QueryComponents(key: string, value: Value, segment: string -> seq<string>)
    returns (components: seq<(string, string)>)
    requires Segments(segment)
    ensures components == EscapePairs(Leaves(key, value))
    decreases value, 1
  {
    components := [];
    match value
    case Dictionary(entries) =>
      for i := 0 to |entries|
        invariant components == EscapePairs(EntryLeaves(key, entries[..i]))
      {
        var nested := QueryComponents(Subscript(key, entries[i].key), entries[i].value, segment);
        NextEntry(key, entries, i);
        components := components + nested;
      }
      assert entries[..|entries|] == entries;
    case Array(items) =>
      for i := 0 to |items|
        invariant components == EscapePairs(ItemLeaves(key, items[..i]))
      {
        var nested := QueryComponents(key + "[]", items[i], segment);
        NextItem(key, items, i);
        components := components + nested;
      }
      assert items[..|items|] == items;
    case Boolean(flag) =>
      var leaf := QueryLeaf(key, if flag then "1" else "0", segment);
      components := components + [leaf];
    case Other(description) =>
      var leaf := QueryLeaf(key, description, segment);
      components := components + [leaf];
  }

  method QueryLeaf(key: string, text: string, segment: string -> seq<string>) returns (leaf: (string, string))
    requires Segments(segment)
    ensures leaf == (Escaped(key), Escaped(text))
  {
    var k := Escape(segment(key));
    var v := Escape(segment(text));
    leaf := (k, v);
  }

  lemma LessIsOrder()
    ensures Sorting.Transitive(Less) && (forall x :: !Less(x, x))
  {
    forall x ensures !Less(x, x) { LessIrreflexive(x); }
    forall x, y, z | Less(x, y) && Less(y, z) ensures Less(x, z) { LessTransitive(x, y, z); }
  }

  /** `keys` lists the keys of a map in increasing order. */
  ghost predicate KeyList(keys: seq<string>, m: map<string, Value>) {
    Sorting.StrictlySorted(keys, Less) && forall k :: k in keys <==> k in m
  }

  lemma KeyListUnique(a: seq<string>, b: seq<string>, m: map<string, Value>)
    requires KeyList(a, m) && KeyList(b, m)
    ensures a == b
  {
    LessIsOrder();
    Sorting.SortedUnique(a, b, Less);
  }

  method SortedKeys(m: map<string, Value>) returns (keys: seq<string>)
    ensures KeyList(keys, m)
  {
    var rest := m.Keys;
    var listed: seq<string> := [];
    while rest != {}
      invariant rest <= m.Keys
      invariant forall k :: k in listed <==> k in m.Keys - rest
      invariant Distinct(listed)
      decreases rest
    {
      var k :| k in rest;
      DistinctSnoc(listed, k);
      listed := listed + [k];
      rest := rest - {k};
    }
    keys := Sorting.Sort(listed, Less);
    LessIsOrder();
    forall i, j | 0 <= i < j < |listed| ensures Less(listed[i], listed[j]) || Less(listed[j], listed[i]) {
      LessTotal(listed[i], listed[j]);
    }
    Sorting.SortSorted(listed, Less);
    forall k ensures k in keys <==> k in m { Sorting.SortSameElements(listed, Less, k); }
  }

  /** The printed query: the leaves of all parameters, by increasing top-level key. */
  ghost predicate Prints(parameters: map<string, Value>, text: string) {
    exists keys :: KeyList(keys, parameters) && text == Print(EscapePairs(TopLeaves(keys, parameters)))
  }

  method Query(parameters: map<string, Value>, segment: string -> seq<string>) returns (text: string)
    requires Segments(segment)
    ensures Prints(parameters, text)
  {
    var components: seq<(string, string)> := [];
    var keys := SortedKeys(parameters);
    for i := 0 to |keys|
      invariant forall j :: 0 <= j < |keys| ==> keys[j] in parameters
      invariant components == EscapePairs(TopLeaves(keys[..i], parameters))
    {
      var nested := QueryComponents(keys[i], parameters[keys[i]], segment);
      NextKey(keys, parameters, i);
      components := components + nested;
    }
    assert keys[..|keys|] == keys;
    text := Print(components);
  }

  // ---------- Parsing ----------

  function DecodePair(piece: string): Option<(string, string)> {
    var parts := Split(piece, '=');
    match (RemovingPercentEncoding(parts[0]), RemovingPercentEncoding(parts[|parts| - 1]))
    case (Some(k), Some(v)) => Some((k, v))
    case _ => None
  }

  /** Every piece decoded, or `None` when some piece cannot be. */
  function DecodeAll<T>(pieces: seq<string>, decode: string -> Option<T>): Option<seq<T>> {
    if pieces == [] then Some([])
    else
      match (DecodeAll(pieces[..|pieces| - 1], decode), decode(pieces[|pieces| - 1]))
      case (Some(front), Some(last)) => Some(front + [last])
      case _ => None
  }

  lemma DecodeAllSnoc<T>(front: seq<string>, last: string, values: seq<T>, decode: string -> Option<T>)
    requires DecodeAll(front, decode) == Some(values)
    ensures DecodeAll(front + [last], decode) == match decode(last) case None => None case Some(v) => Some(values + [v])
  {
    var all := front + [last];
    assert all[..|all| - 1] == front;
  }

  lemma {:induction false} DecodeAllFails<T>(pieces: seq<string>, decode: string -> Option<T>)
    ensures DecodeAll(pieces, decode).None? <==> exists p :: p in pieces && decode(p).None?
  {
    if pieces != [] {
      var n := |pieces| - 1;
      DecodeAllFails(pieces[..n], decode);
      assert pieces == pieces[..n] + [pieces[n]];
    }
  }

  /** One more piece of the parser's loop. */
  lemma DecodeAllNext<T>(pieces: seq<string>, i: nat, values: seq<T>, decode: string -> Option<T>)
    requires i < |pieces| && DecodeAll(pieces[..i], decode) == Some(values) && decode(pieces[i]).Some?
    ensures DecodeAll(pieces[..i + 1], decode) == Some(values + [decode(pieces[i]).value])
  {
    PrefixSnoc(pieces, i);
    DecodeAllSnoc(pieces[..i], pieces[i], values, decode);
  }

  lemma {:induction false} DecodeAllOf<T>(pieces: seq<string>, values: seq<T>, decode: string -> Option<T>)
    requires |pieces| == |values| && forall i :: 0 <= i < |pieces| ==> decode(pieces[i]) == Some(values[i])
    ensures DecodeAll(pieces, decode) == Some(values)
  {
    if pieces != [] {
      var n := |pieces| - 1;
      DecodeAllOf(pieces[..n], values[..n], decode);
      assert values == values[..n] + [values[n]];
    }
  }

  function ToMap(pairs: seq<(string, string)>): map<string, string> {
    if pairs == [] then map[]
    else
      var (k, v) := pairs[|pairs| - 1];
      ToMap(pairs[..|pairs| - 1])[k := v]
  }

  /** The parser: `None` stands for the forced unwrapping of an undecodable key or value. */
  function ParsePairs(text: string): Option<seq<(string, string)>> {
    DecodeAll(Split(text, '&'), DecodePair)
  }

  lemma ToMapNext(pairs: seq<(string, string)>, pair: (string, string))
    ensures ToMap(pairs + [pair]) == ToMap(pairs)[pair.0 := pair.1]
  {
    assert (pairs + [pair])[..|pairs|] == pairs;
  }

  method ParseQuery(text: string) returns (r: Option<map<string, string>>)
    ensures r == match ParsePairs(text) case None => None case Some(pairs) => Some(ToMap(pairs))
    ensures r.None? <==> exists p :: p in Split(text, '&') && DecodePair(p).None?
  {
    DecodeAllFails(Split(text, '&'), DecodePair);
    r := CollectPairs(Split(text, '&'), DecodePair);
  }

  /** The parser's loop, for any reading of a piece. */
  method CollectPairs(pieces: seq<string>, decode: string -> Option<(string, string)>) returns (r: Option<map<string, string>>)
    ensures r == match DecodeAll(pieces, decode) case None => None case Some(pairs) => Some(ToMap(pairs))
  {
    var dictionary: map<string, string> := map[];
    ghost var pairs: seq<(string, string)> := [];
    for i := 0 to |pieces|
      invariant DecodeAll(pieces[..i], decode) == Some(pairs) && dictionary == ToMap(pairs)
    {
      var pair := decode(pieces[i]);
      if pair.None? {
        DecodeAllFails(pieces, decode);
        return None;
      }
      DecodeAllNext(pieces, i, pairs, decode);
      ToMapNext(pairs, pair.value);
      pairs := pairs + [pair.value];
      dictionary := dictionary[pair.value.0 := pair.value.1];
    }
    assert pieces[..|pieces|] == pieces;
    r := Some(dictionary);
  }

  // ---------- The parser undoes the printer ----------

  function Piece(pair: (string, string)): string {
    Escaped(pair.0) + ['='] + Escaped(pair.1)
  }

  lemma DecodePiece(pair: (string, string))
    ensures DecodePair(Piece(pair)) == Some(pair)
    ensures '&' !in Piece(pair)
  {
    EscapedIsSafe(pair.0);
    EscapedIsSafe(pair.1);
    SplitAtFirst(Escaped(pair.0), '=', Escaped(pair.1));
    SplitWithout(Escaped(pair.1), '=');
  }

  function Pieces(pairs: seq<(string, string)>): (pieces: seq<string>)
    ensures |pieces| == |pairs| && forall i :: 0 <= i < |pieces| ==> pieces[i] == Piece(pairs[i])
  {
    seq(|pairs|, i requires 0 <= i < |pairs| => Piece(pairs[i]))
  }

  lemma DecodePieces(pairs: seq<(string, string)>)
    ensures DecodeAll(Pieces(pairs), DecodePair) == Some(pairs)
  {
    forall i | 0 <= i < |pairs| ensures DecodePair(Pieces(pairs)[i]) == Some(pairs[i]) { DecodePiece(pairs[i]); }
    DecodeAllOf(Pieces(pairs), pairs, DecodePair);
  }

  lemma PrintIsJoin(pairs: seq<(string, string)>)
    ensures Print(EscapePairs(pairs)) == Join(Pieces(pairs), '&')
  {
    var components := EscapePairs(pairs);
    var printed := seq(|components|, i requires 0 <= i < |components| => components[i].0 + ['='] + components[i].1);
    assert printed == Pieces(pairs);
  }

  /** Parsing printed pairs gives them back, exactly when there is one. */
  lemma ParsePrinted(pairs: seq<(string, string)>)
    ensures ParsePairs(Print(EscapePairs(pairs))) == Some(pairs) <==> pairs != []
  {
    PrintIsJoin(pairs);
    DecodePieces(pairs);
    if pairs == [] {
      EmptyTextHasAKey();
    } else {
      forall i | 0 <= i < |Pieces(pairs)| ensures '&' !in Pieces(pairs)[i] {
        DecodePiece(pairs[i]);
      }
      SplitJoin(Pieces(pairs), '&');
    }
  }

  lemma PrintNothing()
    ensures Print(EscapePairs([])) == ""
  {
    PrintIsJoin([]);
  }

  lemma EmptyTextHasAKey()
    ensures ParsePairs("") == Some([("", "")])
    ensures ToMap([("", "")]) == map["" := ""]
  {
    SplitWithout("", '&');
    SplitWithout("", '=');
    assert DecodePair("") == Some(("", ""));
    DecodeAllSnoc([], "", [], DecodePair);
    assert [""] == [] + [""];
    var pairs := [("", "")];
    assert pairs == [] + pairs;
    assert pairs[..0] == [];
  }

  lemma PrintedText(parameters: map<string, Value>, keys: seq<string>, text: string)
    requires Prints(parameters, text) && KeyList(keys, parameters)
    ensures forall i :: 0 <= i < |keys| ==> keys[i] in parameters
    ensures text == Print(EscapePairs(TopLeaves(keys, parameters)))
  {
    var ks :| KeyList(ks, parameters) && text == Print(EscapePairs(TopLeaves(ks, parameters)));
    KeyListUnique(ks, keys, parameters);
  }

  /** For every parameter tree, the printed query parses back into exactly its leaves with
      their paths, one pair per leaf in order, if and only if there is a leaf. */
  lemma QueryRecoversLeaves(parameters: map<string, Value>, keys: seq<string>, text: string)
    requires Prints(parameters, text) && KeyList(keys, parameters)
    ensures ParsePairs(text) == Some(TopLeaves(keys, parameters)) <==> TopLeaves(keys, parameters) != []
  {
    PrintedText(parameters, keys, text);
    ParsePrinted(TopLeaves(keys, parameters));
  }

  /** A parameter map whose values are plain texts. */
  function Flat(m: map<string, string>): map<string, Value> {
    map k | k in m :: Other(m[k])
  }

  function Restrict(m: map<string, string>, keys: seq<string>): map<string, string> {
    map k | k in m && k in keys :: m[k]
  }

  lemma {:induction false} FlatLeaves(m: map<string, string>, keys: seq<string>)
    requires forall i :: 0 <= i < |keys| ==> keys[i] in m
    requires Distinct(keys)
    ensures |TopLeaves(keys, Flat(m))| == |keys|
    ensures ToMap(TopLeaves(keys, Flat(m))) == Restrict(m, keys)
  {
    if keys != [] {
      var n := |keys| - 1;
      var key := keys[n];
      FlatLeaves(m, keys[..n]);
      var front := TopLeaves(keys[..n], Flat(m));
      var all := front + [(key, m[key])];
      assert all[..|all| - 1] == front;
      assert keys == keys[..n] + [key];
    }
  }

  lemma SortedIsDistinct(keys: seq<string>)
    requires Sorting.StrictlySorted(keys, Less)
    ensures Distinct(keys)
  {
    LessIsOrder();
  }

  /** The repository's parser undoes its printer on flat maps, including empty keys and
      values, if and only if the map is not empty. */
  lemma FlatRoundTrip(m: map<string, string>, text: string)
    requires Prints(Flat(m), text)
    ensures ParsesTo(text, m) <==> m != map[]
  {
    var keys :| KeyList(keys, Flat(m)) && text == Print(EscapePairs(TopLeaves(keys, Flat(m))));
    FlatKeys(m, keys);
    ParsePrintedMap(TopLeaves(keys, Flat(m)));
  }

  lemma FlatKeys(m: map<string, string>, keys: seq<string>)
    requires KeyList(keys, Flat(m))
    ensures ToMap(TopLeaves(keys, Flat(m))) == m
    ensures TopLeaves(keys, Flat(m)) == [] <==> m == map[]
  {
    SortedIsDistinct(keys);
    assert forall i :: 0 <= i < |keys| ==> keys[i] in keys && keys[i] in Flat(m);
    FlatLeaves(m, keys);
    assert Restrict(m, keys) == m;
    if keys != [] {
      assert keys[0] in m;
    }
  }

  ghost predicate ParsesTo(text: string, m: map<string, string>) {
    ParsePairs(text).Some? && ToMap(ParsePairs(text).value) == m
  }

  lemma ParsePrintedMap(pairs: seq<(string, string)>)
    ensures ParsesTo(Print(EscapePairs(pairs)), ToMap(pairs)) <==> pairs != []
  {
    if pairs == [] {
      PrintNothing();
      EmptyTextHasAKey();
      assert "" in ToMap([("", "")]);
    } else {
      ParsePrinted(pairs);
    }
  }

  // ---------- Pieces the printer does not write ----------

  lemma {:induction false} SplitEnds(a: string, sep: char, b: string)
    requires sep !in b
    ensures Split(a + [sep] + b, sep)[|Split(a + [sep] + b, sep)| - 1] == b
  {
    var s := a + [sep] + b;
    if a == [] {
      assert s[1..] == b;
      SplitWithout(b, sep);
    } else {
      assert s[1..] == a[1..] + [sep] + b;
      SplitEnds(a[1..], sep, b);
      if |Split(s[1..], sep)| == 1 { SplitTwice(a[1..], sep, b); }
    }
  }

  lemma {:induction false} SplitTwice(a: string, sep: char, b: string)
    ensures |Split(a + [sep] + b, sep)| >= 2
  {
    var s := a + [sep] + b;
    if a == [] {
      assert s[1..] == b;
    } else {
      assert s[1..] == a[1..] + [sep] + b;
      SplitTwice(a[1..], sep, b);
    }
  }

  function Decoded(key: string, value: string): Option<(string, string)> {
    match (RemovingPercentEncoding(key), RemovingPercentEncoding(value))
    case (Some(k), Some(v)) => Some((k, v))
    case _ => None
  }

  /** A piece without `=` is both key and value. */
  lemma BarePieceRead(piece: string)
    requires '=' !in piece
    ensures DecodePair(piece) == Decoded(piece, piece)
  {
    SplitWithout(piece, '=');
  }

  /** Otherwise the key is what stands before the first `=` and the value what stands after the last;
      anything between is lost. */
  lemma PieceRead(key: string, between: string, value: string)
    requires '=' !in key && '=' !in value
    ensures DecodePair(key + "=" + value) == Decoded(key, value)
    ensures DecodePair(key + "=" + between + "=" + value) == Decoded(key, value)
  {
    SplitAtFirst(key, '=', value);
    SplitWithout(value, '=');
    var rest := between + "=" + value;
    assert key + "=" + between + "=" + value == key + "=" + rest;
    SplitAtFirst(key, '=', rest);
    SplitEnds(between, '=', value);
  }

  /** Booleans print as digits, everything else by its description. */
  lemma ScalarsPrint(key: string, description: string)
    ensures Leaves(key, Boolean(true)) == [(key, "1")] && Leaves(key, Boolean(false)) == [(key, "0")]
    ensures Leaves(key, Other(description)) == [(key, description)]
  {}

  // ---------- Bracketed paths ----------

  /** The name of a leaf below `root`: a subscript for each dictionary key on the way, and an empty
      one for each array. */
  function Name(root: string, keys: seq<string>): string {
    root + Subscripts(keys)
  }

  function Subscripts(keys: seq<string>): string {
    if keys == [] then "" else "[" + keys[0] + "]" + Subscripts(keys[1..])
  }

  lemma {:induction false} SubscriptsSnoc(keys: seq<string>, key: string)
    ensures Subscripts(keys + [key]) == Subscripts(keys) + "[" + key + "]"
  {
    if keys == [] {
      assert ([key])[1..] == [];
    } else {
      assert (keys + [key])[1..] == keys[1..] + [key];
      SubscriptsSnoc(keys[1..], key);
    }
  }

  lemma NameSnoc(root: string, keys: seq<string>, key: string)
    ensures Name(root, keys + [key]) == Subscript(Name(root, keys), key)
    ensures key == "" ==> Name(root, keys + [key]) == Name(root, keys) + "[]"
  {
    SubscriptsSnoc(keys, key);
  }

  /** `k` is also the name of something nested. */
  ghost predicate NamesNested(k: string) {
    exists root, keys :: keys != [] && Name(root, keys) == k
  }

  lemma BracketsIn(front: string, key: string)
    ensures var k := Subscript(front, key); '[' in k && k[|k| - 1] == ']'
  {
    assert Subscript(front, key)[|front|] == '[';
  }

  lemma NestedHasBrackets(root: string, keys: seq<string>)
    requires keys != []
    ensures var k := Name(root, keys); '[' in k && k != "" && k[|k| - 1] == ']'
  {
    var n := |keys| - 1;
    NameSnoc(root, keys[..n], keys[n]);
    BracketsIn(Name(root, keys[..n]), keys[n]);
    assert keys[..n] + [keys[n]] == keys;
  }

  lemma NameOne(root: string, key: string)
    ensures Name(root, [key]) == root + "[" + key + "]"
  {
    SubscriptsSnoc([], key);
    assert [] + [key] == [key];
  }

  lemma BracketsAreNested(a: string, key: string)
    ensures NamesNested(a + "[" + key + "]")
  {
    NameOne(a, key);
    assert [key] != [];
  }

  /** A plain key reads as a nested path if and only if it holds `[` and ends in `]`. */
  lemma NamesNestedExactlyWhen(k: string)
    ensures NamesNested(k) <==> '[' in k && k != "" && k[|k| - 1] == ']'
  {
    if NamesNested(k) {
      var root, keys :| keys != [] && Name(root, keys) == k;
      NestedHasBrackets(root, keys);
    } else if '[' in k && k != "" && k[|k| - 1] == ']' {
      var i :| 0 <= i < |k| && k[i] == '[';
      assert k == k[..i] + "[" + k[i + 1..|k| - 1] + "]";
      BracketsAreNested(k[..i], k[i + 1..|k| - 1]);
    }
  }

  predicate NoBracket(key: string) {
    '[' !in key && ']' !in key
  }

  predicate NoBrackets(keys: seq<string>) {
    forall i :: 0 <= i < |keys| ==> NoBracket(keys[i])
  }

  /** A text is cut at the first `c` in only one way. */
  lemma {:induction false} CutAtFirst(a: string, x: string, b: string, y: string, c: char)
    requires c !in a && c !in b && a + x == b + y
    requires (x == [] || x[0] == c) && (y == [] || y[0] == c)
    ensures a == b && x == y
  {
    if a != [] && b != [] {
      assert a[0] == (a + x)[0] == (b + y)[0] == b[0];
      assert a[1..] + x == (a + x)[1..] == (b + y)[1..] == b[1..] + y;
      CutAtFirst(a[1..], x, b[1..], y, c);
      assert a == [a[0]] + a[1..] && b == [b[0]] + b[1..];
    } else {
      assert a == [] ==> a + x == x;
      assert b == [] ==> b + y == y;
    }
  }

  lemma {:induction false} SubscriptsInjective(ks: seq<string>, ls: seq<string>)
    requires NoBrackets(ks) && NoBrackets(ls) && Subscripts(ks) == Subscripts(ls)
    ensures ks == ls
    decreases |ks|
  {
    if ks != [] && ls != [] {
      var x, y := "]" + Subscripts(ks[1..]), "]" + Subscripts(ls[1..]);
      assert Subscripts(ks) == "[" + (ks[0] + x) && Subscripts(ls) == "[" + (ls[0] + y);
      assert ks[0] + x == Subscripts(ks)[1..] == ls[0] + y;
      CutAtFirst(ks[0], x, ls[0], y, ']');
      assert Subscripts(ks[1..]) == x[1..] && Subscripts(ls[1..]) == y[1..];
      SubscriptsInjective(ks[1..], ls[1..]);
      assert ks == [ks[0]] + ks[1..] && ls == [ls[0]] + ls[1..];
    }
  }

  /** Without brackets in the keys, a name stands for one path only. */
  lemma NameInjective(root: string, ks: seq<string>, root': string, ls: seq<string>)
    requires NoBracket(root) && NoBracket(root') && NoBrackets(ks) && NoBrackets(ls)
    ensures Name(root, ks) == Name(root', ls) <==> root == root' && ks == ls
  {
    if Name(root, ks) == Name(root', ls) {
      CutAtFirst(root, Subscripts(ks), root', Subscripts(ls), '[');
      SubscriptsInjective(ks, ls);
    }
  }

  // ---------- What a printed tree tells ----------

  /** The path to a leaf: the top-level key, and the keys below it, empty for an array. */
  datatype Path = Path(root: string, keys: seq<string>)

  function Below(path: Path, key: string): Path {
    path.(keys := path.keys + [key])
  }

  /** The leaves of a tree with their paths. */
  function PathLeaves(path: Path, value: Value): seq<(Path, string)>
    decreases value, 0
  {
    match value
    case Dictionary(entries) => EntryPaths(path, entries)
    case Array(items) => ItemPaths(path, items)
    case Boolean(flag) => [(path, if flag then "1" else "0")]
    case Other(description) => [(path, description)]
  }

  function EntryPaths(path: Path, entries: seq<Entry>): seq<(Path, string)>
    decreases entries, 1
  {
    if entries == [] then []
    else
      var last := entries[|entries| - 1];
      EntryPaths(path, entries[..|entries| - 1]) + PathLeaves(Below(path, last.key), last.value)
  }

  function ItemPaths(path: Path, items: seq<Value>): seq<(Path, string)>
    decreases items, 1
  {
    if items == [] then []
    else ItemPaths(path, items[..|items| - 1]) + PathLeaves(Below(path, ""), items[|items| - 1])
  }

  function Named(leaf: (Path, string)): (string, string) {
    (Name(leaf.0.root, leaf.0.keys), leaf.1)
  }

  /** The printer names every leaf by its path. */
  lemma {:induction false} LeavesAreNamed(path: Path, value: Value)
    ensures Leaves(Name(path.root, path.keys), value) == Mapped(PathLeaves(path, value), Named)
    decreases value, 0
  {
    match value
    case Dictionary(entries) => EntriesAreNamed(path, entries);
    case Array(items) => ItemsAreNamed(path, items);
    case _ =>
  }

  lemma {:induction false} EntriesAreNamed(path: Path, entries: seq<Entry>)
    ensures EntryLeaves(Name(path.root, path.keys), entries) == Mapped(EntryPaths(path, entries), Named)
    decreases entries, 1
  {
    if entries != [] {
      var n, last := |entries| - 1, entries[|entries| - 1];
      EntriesAreNamed(path, entries[..n]);
      NameSnoc(path.root, path.keys, last.key);
      LeavesAreNamed(Below(path, last.key), last.value);
      MappedConcat(EntryPaths(path, entries[..n]), PathLeaves(Below(path, last.key), last.value), Named);
    }
  }

  lemma {:induction false} ItemsAreNamed(path: Path, items: seq<Value>)
    ensures ItemLeaves(Name(path.root, path.keys), items) == Mapped(ItemPaths(path, items), Named)
    decreases items, 1
  {
    if items != [] {
      var n, last := |items| - 1, items[|items| - 1];
      ItemsAreNamed(path, items[..n]);
      NameSnoc(path.root, path.keys, "");
      LeavesAreNamed(Below(path, ""), last);
      MappedConcat(ItemPaths(path, items[..n]), PathLeaves(Below(path, ""), last), Named);
    }
  }

  predicate PlainPath(path: Path) {
    NoBracket(path.root) && NoBrackets(path.keys)
  }

  /** No key of the tree holds a bracket. */
  predicate PlainTree(value: Value)
    decreases value, 0
  {
    match value
    case Dictionary(entries) => PlainEntries(entries)
    case Array(items) => PlainItems(items)
    case _ => true
  }

  predicate PlainEntries(entries: seq<Entry>)
    decreases entries, 1
  {
    entries == [] ||
    (PlainEntries(entries[..|entries| - 1]) && NoBracket(entries[|entries| - 1].key) && PlainTree(entries[|entries| - 1].value))
  }

  predicate PlainItems(items: seq<Value>)
    decreases items, 1
  {
    items == [] || (PlainItems(items[..|items| - 1]) && PlainTree(items[|items| - 1]))
  }

  ghost predicate PlainPaths(leaves: seq<(Path, string)>) {
    forall i :: 0 <= i < |leaves| ==> PlainPath(leaves[i].0)
  }

  lemma {:induction false} PathsArePlain(path: Path, value: Value)
    requires PlainPath(path) && PlainTree(value)
    ensures PlainPaths(PathLeaves(path, value))
    decreases value, 0
  {
    match value
    case Dictionary(entries) => EntryPathsArePlain(path, entries);
    case Array(items) => ItemPathsArePlain(path, items);
    case _ =>
  }

  lemma {:induction false} EntryPathsArePlain(path: Path, entries: seq<Entry>)
    requires PlainPath(path) && PlainEntries(entries)
    ensures PlainPaths(EntryPaths(path, entries))
    decreases entries, 1
  {
    if entries != [] {
      EntryPathsArePlain(path, entries[..|entries| - 1]);
      PathsArePlain(Below(path, entries[|entries| - 1].key), entries[|entries| - 1].value);
    }
  }

  lemma {:induction false} ItemPathsArePlain(path: Path, items: seq<Value>)
    requires PlainPath(path) && PlainItems(items)
    ensures PlainPaths(ItemPaths(path, items))
    decreases items, 1
  {
    if items != [] {
      ItemPathsArePlain(path, items[..|items| - 1]);
      PathsArePlain(Below(path, ""), items[|items| - 1]);
    }
  }

  lemma NamedInjective(a: seq<(Path, string)>, b: seq<(Path, string)>)
    requires PlainPaths(a) && PlainPaths(b) && Mapped(a, Named) == Mapped(b, Named)
    ensures a == b
  {
    forall i | 0 <= i < |a| ensures a[i] == b[i] {
      assert Mapped(a, Named)[i] == Mapped(b, Named)[i];
      NameInjective(a[i].0.root, a[i].0.keys, b[i].0.root, b[i].0.keys);
    }
  }

  lemma PrintedIsNotEmpty(pairs: seq<(string, string)>)
    requires pairs != []
    ensures Print(EscapePairs(pairs)) != ""
  {
    PrintIsJoin(pairs);
    assert Pieces(pairs)[0] == Piece(pairs[0]) != "";
  }

  /** A printed text stands for one list of pairs only. */
  lemma PrintInjective(a: seq<(string, string)>, b: seq<(string, string)>)
    ensures Print(EscapePairs(a)) == Print(EscapePairs(b)) <==> a == b
  {
    if a != [] {
      ParsePrinted(a);
      PrintedIsNotEmpty(a);
    }
    if b != [] {
      ParsePrinted(b);
      PrintedIsNotEmpty(b);
    }
    PrintNothing();
  }

  /** The leaves of all parameters with their paths. */
  function TopPaths(keys: seq<string>, parameters: map<string, Value>): seq<(Path, string)>
    requires forall i :: 0 <= i < |keys| ==> keys[i] in parameters
  {
    if keys == [] then []
    else
      var key := keys[|keys| - 1];
      TopPaths(keys[..|keys| - 1], parameters) + PathLeaves(Path(key, []), parameters[key])
  }

  lemma {:induction false} TopLeavesAreNamed(keys: seq<string>, parameters: map<string, Value>)
    requires forall i :: 0 <= i < |keys| ==> keys[i] in parameters
    ensures TopLeaves(keys, parameters) == Mapped(TopPaths(keys, parameters), Named)
  {
    if keys != [] {
      var n, key := |keys| - 1, keys[|keys| - 1];
      TopLeavesAreNamed(keys[..n], parameters);
      LeavesAreNamed(Path(key, []), parameters[key]);
      assert Name(key, []) == key;
      MappedConcat(TopPaths(keys[..n], parameters), PathLeaves(Path(key, []), parameters[key]), Named);
    }
  }

  /** No key in the parameters, at any depth, holds a bracket. */
  ghost predicate PlainParameters(parameters: map<string, Value>) {
    forall key :: key in parameters ==> NoBracket(key) && PlainTree(parameters[key])
  }

  lemma {:induction false} TopPathsArePlain(keys: seq<string>, parameters: map<string, Value>)
    requires PlainParameters(parameters) && forall i :: 0 <= i < |keys| ==> keys[i] in parameters
    ensures PlainPaths(TopPaths(keys, parameters))
  {
    if keys != [] {
      var n, key := |keys| - 1, keys[|keys| - 1];
      TopPathsArePlain(keys[..n], parameters);
      PathsArePlain(Path(key, []), parameters[key]);
    }
  }

  lemma PathsMatch(keys: seq<string>, p: map<string, Value>, keys': seq<string>, q: map<string, Value>)
    requires PlainParameters(p) && PlainParameters(q)
    requires forall i :: 0 <= i < |keys| ==> keys[i] in p
    requires forall i :: 0 <= i < |keys'| ==> keys'[i] in q
    ensures TopLeaves(keys, p) == TopLeaves(keys', q) <==> TopPaths(keys, p) == TopPaths(keys', q)
  {
    TopLeavesAreNamed(keys, p);
    TopLeavesAreNamed(keys', q);
    TopPathsArePlain(keys, p);
    TopPathsArePlain(keys', q);
    if TopLeaves(keys, p) == TopLeaves(keys', q) { NamedInjective(TopPaths(keys, p), TopPaths(keys', q)); }
  }

  /** Parameters without brackets in their keys print the same query if and only if they have the
      same leaves at the same paths, in the same order. */
  lemma PrintedTreesAgreeExactlyWhen(p: map<string, Value>, q: map<string, Value>, keys: seq<string>, keys': seq<string>,
                                     text: string, text': string)
    requires PlainParameters(p) && PlainParameters(q) && KeyList(keys, p) && KeyList(keys', q)
    requires Prints(p, text) && Prints(q, text')
    ensures (forall i :: 0 <= i < |keys| ==> keys[i] in p) && (forall i :: 0 <= i < |keys'| ==> keys'[i] in q)
    ensures text == text' <==> TopPaths(keys, p) == TopPaths(keys', q)
  {
    PrintedText(p, keys, text);
    PrintedText(q, keys', text');
    PrintInjective(TopLeaves(keys, p), TopLeaves(keys', q));
    PathsMatch(keys, p, keys', q);
  }

  /** With brackets in a key they can: here a key reads as a nested dictionary. */
  lemma PathsAreAmbiguous(x: string)
    ensures Dictionary([Entry("b", Other(x))]) != Other(x)
    ensures Leaves("a", Dictionary([Entry("b", Other(x))])) == Leaves("a[b]", Other(x))
  {
    var entries := [Entry("b", Other(x))];
    assert entries[..0] == [];
    assert EntryLeaves("a", entries) == EntryLeaves("a", entries[..0]) + Leaves(Subscript("a", "b"), Other(x));
    assert Subscript("a", "b") == "a[b]";
  }
}
