/** `DATE_PATTERN.search(filename)` for the pattern
    `(\d{4})[-_]?(\d{2})[-_]?(\d{2})`, with `\d` read as an ASCII digit. */
module DatePattern {
  import opened Wrappers
  import opened Strings

  /** One match of the pattern: the three groups and the two optional
      separators between them. */
  datatype DateMatch = DateMatch(year: string, sep1: string, month: string, sep2: string, day: string)
  {
    /** The matched text. */
    function Text(): string {
      year + sep1 + month + sep2 + day
    }

    /** Four digits, an optional `-` or `_`, two digits, an optional `-` or
        `_`, two digits. */
    predicate WellFormed() {
      && |year| == 4 && IsDigits(year)
      && OptionalSep(sep1)
      && |month| == 2 && IsDigits(month)
      && OptionalSep(sep2)
      && |day| == 2 && IsDigits(day)
    }
  }

  predicate IsSep(c: char) {
    c == '-' || c == '_'
  }

  predicate OptionalSep(t: string) {
    t == "" || t == "-" || t == "_"
  }

  /** The declarative reading of the pattern: `m` is a match that starts at
      position `i` of `s`. */
  predicate MatchesAt(s: string, i: nat, m: DateMatch) {
    m.WellFormed() && i + |m.Text()| <= |s| && s[i..i + |m.Text()|] == m.Text()
  }

  predicate DigitsAt(s: string, i: nat, n: nat) {
    i + n <= |s| && IsDigits(s[i..i + n])
  }

  /** The optional separator `[-_]?` at position j, taken when present. */
  function SepAt(s: string, j: nat): string {
    if j < |s| && IsSep(s[j]) then [s[j]] else ""
  }

  /** One element of the pattern: a run of `n` digits (`\d{n}`) or an
      optional separator (`[-_]?`). */
  datatype Item = Digits(n: nat) | OptSep

  /** `(\d{4})[-_]?(\d{2})[-_]?(\d{2})`, item by item. */
  const DateItems: seq<Item> := [Digits(4), OptSep, Digits(2), OptSep, Digits(2)]

  predicate Fits(item: Item, piece: string) {
    match item
    case Digits(n) => |piece| == n && IsDigits(piece)
    case OptSep => OptionalSep(piece)
  }

  /** Each piece fits the item in the same place. */
  predicate FitsAll(items: seq<Item>, pieces: seq<string>) {
    |items| == |pieces| && forall q :: 0 <= q < |items| ==> Fits(items[q], pieces[q])
  }

  /** The pieces one after the other. */
  function Concat(pieces: seq<string>): string
    decreases |pieces|
  {
    if pieces == [] then "" else pieces[0] + Concat(pieces[1..])
  }

  /** The text an item takes at position i. The separator is taken whenever
      present: backtracking out of it never helps in this pattern, since the
      digits that would then have to follow start with that separator. */
  function Piece(s: string, i: nat, item: Item): Option<string>
    requires i <= |s|
  {
    match item
    case Digits(n) => if DigitsAt(s, i, n) then Some(s[i..i + n]) else None
    case OptSep => Some(SepAt(s, i))
  }

  /** The regular-expression engine at one start position: the items taken
      in turn, each from where the previous one ended. */
  function MatchItems(s: string, i: nat, items: seq<Item>): (r: Option<seq<string>>)
    requires i <= |s|
    ensures r.Some? ==> |r.value| == |items|
    decreases |items|
  {
    if items == [] then Some([])
    else
      match Piece(s, i, items[0])
      case None => None
      case Some(p) =>
        PieceSound(s, i, items[0]);
        match MatchItems(s, i + |p|, items[1..])
        case None => None
        case Some(rest) => Some([p] + rest)
  }

  /** A piece the engine takes fits its item and is the text found there. */
  lemma PieceSound(s: string, i: nat, item: Item)
    requires i <= |s| && Piece(s, i, item).Some?
    ensures var p := Piece(s, i, item).value;
      Fits(item, p) && i + |p| <= |s| && s[i..i + |p|] == p
  {
    if item.OptSep? {
      SepAtSlice(s, i);
    }
  }

  /** What the engine finds fits the items and is the text from i on. */
  lemma MatchItemsSound(s: string, i: nat, items: seq<Item>, pieces: seq<string>)
    requires i <= |s| && MatchItems(s, i, items) == Some(pieces)
    ensures FitsAll(items, pieces) && i + |Concat(pieces)| <= |s| && s[i..i + |Concat(pieces)|] == Concat(pieces)
  {
    MatchItemsFit(s, i, items, pieces);
    MatchItemsText(s, i, items, pieces);
  }

  lemma {:induction false} MatchItemsFit(s: string, i: nat, items: seq<Item>, pieces: seq<string>)
    requires i <= |s| && MatchItems(s, i, items) == Some(pieces)
    ensures FitsAll(items, pieces)
    decreases |items|
  {
    if items != [] {
      MatchItemsFirst(s, i, items, pieces);
      PieceSound(s, i, items[0]);
      MatchItemsFit(s, i + |pieces[0]|, items[1..], pieces[1..]);
      FitsAllCons(items, pieces);
    }
  }

  lemma {:induction false} MatchItemsText(s: string, i: nat, items: seq<Item>, pieces: seq<string>)
    requires i <= |s| && MatchItems(s, i, items) == Some(pieces)
    ensures i + |Concat(pieces)| <= |s| && s[i..i + |Concat(pieces)|] == Concat(pieces)
    decreases |items|
  {
    if items != [] {
      var p, rest := pieces[0], pieces[1..];
      MatchItemsFirst(s, i, items, pieces);
      PieceSound(s, i, items[0]);
      MatchItemsText(s, i + |p|, items[1..], rest);
      assert Concat(pieces) == p + Concat(rest);
      Append(s, i, p, Concat(rest), Concat(pieces));
    }
  }

  /** A match of the items starts with the first item's piece and goes on
      with a match of the rest. */
  lemma MatchItemsFirst(s: string, i: nat, items: seq<Item>, pieces: seq<string>)
    requires i <= |s| && items != [] && MatchItems(s, i, items) == Some(pieces)
    ensures Piece(s, i, items[0]) == Some(pieces[0])
    ensures i + |pieces[0]| <= |s| && MatchItems(s, i + |pieces[0]|, items[1..]) == Some(pieces[1..])
  {
    var p := Piece(s, i, items[0]).value;
    PieceSound(s, i, items[0]);
    var rest := MatchItems(s, i + |p|, items[1..]).value;
    assert pieces == [p] + rest;
    assert pieces[1..] == rest;
  }

  /** Two pieces of text found side by side make up their concatenation. */
  lemma Append(s: string, i: nat, a: string, b: string, t: string)
    requires t == a + b
    requires i + |a| + |b| <= |s| && s[i..i + |a|] == a && s[i + |a|..i + |a| + |b|] == b
    ensures i + |t| <= |s| && s[i..i + |t|] == t
  {
    Adjacent(s, i, i + |a|, i + |a| + |b|);
  }

  /** Fitting the first item and then the rest is fitting them all. */
  lemma FitsAllCons(items: seq<Item>, pieces: seq<string>)
    requires items != [] && |pieces| == |items|
    requires Fits(items[0], pieces[0]) && FitsAll(items[1..], pieces[1..])
    ensures FitsAll(items, pieces)
  {
    forall q | 1 <= q < |items|
      ensures Fits(items[q], pieces[q])
    {
      assert Fits(items[1..][q - 1], pieces[1..][q - 1]);
    }
  }

  /** The pieces of a match, in pattern order. */
  function Parts(m: DateMatch): seq<string> {
    [m.year, m.sep1, m.month, m.sep2, m.day]
  }

  lemma PartsText(m: DateMatch)
    ensures Concat(Parts(m)) == m.Text()
  {
    var ps := Parts(m);
    assert ps[1..][1..][1..][1..][1..] == [];
    assert Concat(ps[1..][1..][1..][1..]) == m.day;
    assert Concat(ps[1..][1..][1..]) == m.sep2 + m.day;
    assert Concat(ps[1..][1..]) == m.month + m.sep2 + m.day;
    assert Concat(ps[1..]) == m.sep1 + m.month + m.sep2 + m.day;
  }

  lemma PartsFit(m: DateMatch)
    ensures FitsAll(DateItems, Parts(m)) <==> m.WellFormed()
  {
    if m.WellFormed() {
      forall q | 0 <= q < 5
        ensures Fits(DateItems[q], Parts(m)[q])
      {
      }
    }
    if FitsAll(DateItems, Parts(m)) {
      assert Fits(DateItems[0], m.year) && Fits(DateItems[1], m.sep1) && Fits(DateItems[2], m.month);
      assert Fits(DateItems[3], m.sep2) && Fits(DateItems[4], m.day);
    }
  }

  /** `re.match` of the pattern at position i. */
  function MatchAt(s: string, i: nat): (r: Option<DateMatch>)
    requires i <= |s|
    ensures r.Some? ==> MatchesAt(s, i, r.value)
  {
    match MatchItems(s, i, DateItems)
    case None => None
    case Some(ps) =>
      MatchItemsSound(s, i, DateItems, ps);
      FromParts(s, i, ps);
      Some(DateMatch(ps[0], ps[1], ps[2], ps[3], ps[4]))
  }

  /** Pieces the engine found for the date pattern form a match. */
  lemma FromParts(s: string, i: nat, ps: seq<string>)
    requires FitsAll(DateItems, ps)
    requires i + |Concat(ps)| <= |s| && s[i..i + |Concat(ps)|] == Concat(ps)
    ensures MatchesAt(s, i, DateMatch(ps[0], ps[1], ps[2], ps[3], ps[4]))
  {
    var m := DateMatch(ps[0], ps[1], ps[2], ps[3], ps[4]);
    assert ps == Parts(m);
    PartsText(m);
    PartsFit(m);
  }

  /** Every optional separator is followed by a non-empty digit run. */
  predicate SepThenDigits(items: seq<Item>) {
    forall q :: 0 <= q < |items| && items[q].OptSep? ==> q + 1 < |items| && items[q + 1].Digits? && items[q + 1].n > 0
  }

  /** The engine finds every division of the text into fitting pieces, as
      long as no separator can swallow the first character of the next
      piece. */
  lemma {:induction false} MatchItemsComplete(s: string, i: nat, items: seq<Item>, pieces: seq<string>)
    requires FitsAll(items, pieces) && SepThenDigits(items)
    requires i + |Concat(pieces)| <= |s| && s[i..i + |Concat(pieces)|] == Concat(pieces)
    ensures MatchItems(s, i, items) == Some(pieces)
    decreases |items|
  {
    if items != [] {
      var p, rest := pieces[0], pieces[1..];
      assert Concat(pieces) == p + Concat(rest);
      Unappend(s, i, p, Concat(rest));
      FirstPiece(s, i, items, pieces);
      Tails(items, pieces);
      MatchItemsComplete(s, i + |p|, items[1..], rest);
      assert [p] + rest == pieces;
      MatchItemsStep(s, i, items, p, rest);
    }
  }

  /** One step of the engine: the first item's piece, then the rest. */
  lemma MatchItemsStep(s: string, i: nat, items: seq<Item>, p: string, rest: seq<string>)
    requires i <= |s| && items != [] && Piece(s, i, items[0]) == Some(p)
    requires MatchItems(s, i + |p|, items[1..]) == Some(rest)
    ensures MatchItems(s, i, items) == Some([p] + rest)
  {
  }

  /** The first item takes exactly the first piece. */
  lemma FirstPiece(s: string, i: nat, items: seq<Item>, pieces: seq<string>)
    requires items != [] && FitsAll(items, pieces) && SepThenDigits(items)
    requires i + |Concat(pieces)| <= |s| && s[i..i + |Concat(pieces)|] == Concat(pieces)
    requires s[i..i + |pieces[0]|] == pieces[0]
    requires s[i + |pieces[0]|..i + |pieces[0]| + |Concat(pieces[1..])|] == Concat(pieces[1..])
    ensures Piece(s, i, items[0]) == Some(pieces[0])
  {
    assert Fits(items[0], pieces[0]);
    if items[0].OptSep? {
      var p, rest := pieces[0], pieces[1..];
      assert Fits(items[1], pieces[1]);
      assert Concat(rest) == pieces[1] + Concat(rest[1..]);
      assert s[i + |p|] == s[i + |p|..i + |p| + |Concat(rest)|][0];
      SepBeforeDigit(s, i, p);
    }
  }

  /** What the remaining items ask of the remaining pieces. */
  lemma Tails(items: seq<Item>, pieces: seq<string>)
    requires items != [] && FitsAll(items, pieces) && SepThenDigits(items)
    ensures FitsAll(items[1..], pieces[1..]) && SepThenDigits(items[1..])
  {
    forall q | 0 <= q < |items| - 1
      ensures Fits(items[1..][q], pieces[1..][q])
    {
      assert Fits(items[q + 1], pieces[q + 1]);
    }
    forall q | 0 <= q < |items| - 1 && items[1..][q].OptSep?
      ensures q + 1 < |items| - 1 && items[1..][q + 1].Digits? && items[1..][q + 1].n > 0
    {
      assert items[q + 1].OptSep?;
    }
  }

  /** Every match the pattern admits at position i is the one `MatchAt`
      finds: there is at most one match per start position. */
  lemma MatchAtComplete(s: string, i: nat, m: DateMatch)
    requires MatchesAt(s, i, m)
    ensures MatchAt(s, i) == Some(m)
  {
    PartsText(m);
    PartsFit(m);
    assert SepThenDigits(DateItems);
    MatchItemsComplete(s, i, DateItems, Parts(m));
  }

  /** Two adjacent slices make up the slice that spans them. */
  lemma Adjacent(s: string, x: nat, y: nat, z: nat)
    requires x <= y <= z <= |s|
    ensures s[x..y] + s[y..z] == s[x..z]
  {
    assert forall q :: 0 <= q < z - x ==> (s[x..y] + s[y..z])[q] == s[x + q];
  }

  /** The separator taken at j is the text found there. */
  lemma SepAtSlice(s: string, j: nat)
    requires j <= |s|
    ensures j + |SepAt(s, j)| <= |s| && SepAt(s, j) == s[j..j + |SepAt(s, j)|]
  {
  }

  /** A separator followed by a digit is the one `SepAt` takes: a digit is
      not a separator, so the optional separator cannot be skipped. */
  lemma SepBeforeDigit(s: string, p: nat, sep: string)
    requires OptionalSep(sep) && p + |sep| < |s|
    requires s[p..p + |sep|] == sep && IsDigit(s[p + |sep|])
    ensures SepAt(s, p) == sep
  {
    if sep != "" {
      assert s[p] == s[p..p + |sep|][0];
    }
  }

  /** Where a concatenation lies, its two halves lie side by side. */
  lemma Unappend(s: string, i: nat, a: string, b: string)
    requires i + |a + b| <= |s| && s[i..i + |a + b|] == a + b
    ensures s[i..i + |a|] == a && s[i + |a|..i + |a| + |b|] == b
  {
    Window(s, i, a + b, 0, |a|);
    Window(s, i, a + b, |a|, |a + b|);
    assert (a + b)[..|a|] == a && (a + b)[|a|..] == b;
  }

  /** A piece of text found at position i: each part of it is found at the
      matching offset. */
  lemma Window(s: string, i: nat, t: string, x: nat, y: nat)
    requires i + |t| <= |s| && s[i..i + |t|] == t
    requires x <= y <= |t|
    ensures s[i + x..i + y] == t[x..y]
  {
    assert forall q :: x <= q < y ==> t[q] == s[i + q];
  }

  /** A match starts with its four year digits. */
  lemma MatchStartsWithYear(s: string, i: nat, m: DateMatch)
    ensures MatchesAt(s, i, m) ==> DigitsAt(s, i, 4) && s[i..i + 4] == m.year
  {
    if MatchesAt(s, i, m) {
      assert m.Text()[..4] == m.year;
      assert s[i..i + 4] == m.Text()[..4];
    }
  }

  /** `re.search` from position `from`: the leftmost start at which the
      pattern matches. */
  function Search(s: string, from: nat): (r: Option<(nat, DateMatch)>)
    requires from <= |s|
    ensures r.Some? ==> from <= r.value.0 <= |s| && MatchAt(s, r.value.0) == Some(r.value.1)
    ensures r.Some? ==> forall j :: from <= j < r.value.0 ==> MatchAt(s, j).None?
    ensures r.None? ==> forall j :: from <= j <= |s| ==> MatchAt(s, j).None?
    decreases |s| - from
  {
    var here := MatchAt(s, from);
    if here.Some? then Some((from, here.value))
    else if from == |s| then None
    else Search(s, from + 1)
  }

  /** `DATE_PATTERN.search(filename)`, reduced to its match. */
  function FindDate(s: string): (r: Option<DateMatch>)
    ensures r.Some? ==> r.value.WellFormed()
  {
    match Search(s, 0)
    case Some((_, m)) => Some(m)
    case None => None
  }

  /** The match found is the leftmost one: it matches at some position and
      no match of any shape starts further left. */
  lemma FindDateIsLeftmost(s: string, k: nat, m: DateMatch)
    requires MatchesAt(s, k, m)
    requires forall j: nat, m': DateMatch :: j < k ==> !MatchesAt(s, j, m')
    ensures FindDate(s) == Some(m)
  {
    MatchAtComplete(s, k, m);
  }

  /** Conversely, what `FindDate` returns is a match starting at some
      position with no match further left. */
  lemma FindDateSound(s: string) returns (k: nat)
    requires FindDate(s).Some?
    ensures MatchesAt(s, k, FindDate(s).value)
    ensures forall j: nat, m': DateMatch :: j < k ==> !MatchesAt(s, j, m')
  {
    k := Search(s, 0).value.0;
    forall j: nat, m': DateMatch | j < k
      ensures !MatchesAt(s, j, m')
    {
      if MatchesAt(s, j, m') {
        MatchAtComplete(s, j, m');
      }
    }
  }

  /** No date is found exactly when the pattern matches nowhere. */
  lemma FindDateNone(s: string)
    ensures FindDate(s).None? <==> forall j: nat, m: DateMatch :: !MatchesAt(s, j, m)
  {
    if FindDate(s).None? {
      forall j: nat, m: DateMatch
        ensures !MatchesAt(s, j, m)
      {
        if MatchesAt(s, j, m) {
          MatchAtComplete(s, j, m);
        }
      }
    } else {
      var k := FindDateSound(s);
    }
  }

  /** A file name with a date and, further on, a longer digit run: the first
      match wins. */
  lemma FindDateExample()
    ensures FindDate("IMG_20230115_received_9999999.jpg") == Some(DateMatch("2023", "", "01", "", "15"))
  {
    var s := "IMG_20230115_received_9999999.jpg";
    var m := DateMatch("2023", "", "01", "", "15");
    assert m.Text() == "20230115";
    assert s[4..12] == "20230115" by {
      assert forall q :: 0 <= q < 8 ==> s[4 + q] == "20230115"[q];
    }
    forall j: nat, m': DateMatch | j < 4
      ensures !MatchesAt(s, j, m')
    {
      MatchStartsWithYear(s, j, m');
      assert s[j..j + 4][3 - j] == s[3] == '_';
    }
    FindDateIsLeftmost(s, 4, m);
  }
}
