/**
 Printing statements and reading them back: whatever the casing of the keywords and whatever
 white space stands between the tokens, tokenizing and parsing a printed statement returns it.
 */
module SqlText {
  import opened Bytes
  import opened Sql
  import opened Tokenizer
  import opened Lexemes
  import opened Parser

  /** A word that is no keyword. */
  ghost predicate IsName(s: string) {
    IsWord(s) && forall kind | IsKeyword(kind) :: !SameLetters(s, Spelling(kind))
  }

  /** The ways to write one item of a statement: as a token that meets it. */
  ghost predicate Prints(lexeme: string, item: Item) {
    exists t :: Spells(lexeme, t) && Meets(t, item)
  }

  ghost predicate AllPrint(pieces: seq<Piece>, items: seq<Item>) {
    |pieces| == |items| && forall i :: 0 <= i < |items| ==> Prints(pieces[i].lexeme, items[i])
  }

  /** Two lexemes may touch unless they would read as one word or number. */
  predicate Apart(before: string, after: string) {
    before != "" && after != "" ==> !In(before[|before| - 1], Word) || !In(after[0], Word)
  }

  ghost predicate Spaced(pieces: seq<Piece>) {
    && (forall i :: 0 <= i < |pieces| ==> AllIn(pieces[i].gap, Space))
    && (forall i :: 0 < i < |pieces| ==> pieces[i].gap != "" || Apart(pieces[i - 1].lexeme, pieces[i].lexeme))
  }

  // ----- reading back -----

  lemma LastInWord(lexeme: string)
    requires IsWord(lexeme) || IsNumberText(lexeme)
    ensures lexeme != "" && In(lexeme[|lexeme| - 1], Word)
  {
    if IsNumberText(lexeme) {
      var digits := if lexeme[0] == '-' then lexeme[1..] else lexeme;
      assert In(digits[|digits| - 1], Digit) && digits[|digits| - 1] == lexeme[|lexeme| - 1];
    }
  }

  /** A lexeme ends before white space and before anything it is apart from. */
  lemma EndsBefore(lexeme: string, t: Token, rest: string)
    requires Spells(lexeme, t) && (rest == "" || IsSpace(rest[0]) || Apart(lexeme, rest))
    ensures Ends(t.kind, rest)
  {
    hide SameLetters, AllIn, IsWord, IsNumberText;
    if t.kind == TokNumber {
      LastInWord(lexeme);
    } else if IsKeyword(t.kind) || t.kind == TokIdentifier {
      SpelledWord(lexeme, t);
      LastInWord(lexeme);
    }
  }

  lemma EndsThere(pieces: seq<Piece>, end: string, i: nat, t: Token)
    requires Spaced(pieces) && AllIn(end, Space) && i < |pieces| && Spells(pieces[i].lexeme, t)
    requires i + 1 < |pieces| ==> pieces[i + 1].lexeme != ""
    ensures Ends(t.kind, Joined(pieces[i + 1..], end))
  {
    hide Spells, Ends;
    var rest := Joined(pieces[i + 1..], end);
    if i + 1 < |pieces| {
      var next := pieces[i + 1];
      assert pieces[i + 1..][0] == next;
      assert rest == next.gap + (next.lexeme + Joined(pieces[i + 1..][1..], end));
      if next.gap == "" {
        assert rest[0] == next.lexeme[0];
      } else {
        assert rest[0] == next.gap[0] && In(next.gap[0], Space);
      }
    } else if end != "" {
      assert In(end[0], Space);
    }
    EndsBefore(pieces[i].lexeme, t, rest);
  }

  /** The token each piece is written for. */
  lemma {:induction false} TokensOf(pieces: seq<Piece>, items: seq<Item>) returns (ts: seq<Token>)
    requires AllPrint(pieces, items)
    ensures |ts| == |pieces| && forall i :: 0 <= i < |ts| ==> Spells(pieces[i].lexeme, ts[i])
    ensures MeetsAll(ts, items)
  {
    hide Spells, Meets;
    if pieces == [] {
      ts := [];
    } else {
      assert forall i :: 0 <= i < |items| - 1 ==> pieces[1..][i] == pieces[i + 1] && items[1..][i] == items[i + 1];
      assert Prints(pieces[0].lexeme, items[0]);
      var t :| Spells(pieces[0].lexeme, t) && Meets(t, items[0]);
      var rest := TokensOf(pieces[1..], items[1..]);
      ts := [t] + rest;
    }
  }

  /** A printed list of items consists of lexemes for tokens that meet the items. */
  lemma PrintedScans(pieces: seq<Piece>, items: seq<Item>, end: string) returns (ts: seq<Token>)
    requires AllPrint(pieces, items) && Spaced(pieces) && AllIn(end, Space)
    ensures MeetsAll(ts, items) && Scans(Joined(pieces, end), ts)
  {
    hide Spells, Meets, Ends, Joined, In, Apart, Prints;
    ts := TokensOf(pieces, items);
    hide AllPrint, MeetsAll;
    forall i | 0 <= i < |ts| ensures Part(pieces, end, ts[i], i) {
      if i + 1 < |ts| { SpelledStarts(pieces[i + 1].lexeme, ts[i + 1]); }
      EndsThere(pieces, end, i, ts[i]);
    }
    assert Parts(pieces, end, ts);
    assert Skips(end, |end|) by { assert end[..|end|] == end; }
    assert Ended(end);
  }

  /** The tokens of a printed list of items meet the items, one by one, with the EOF behind them. */
  lemma LexJoined(pieces: seq<Piece>, items: seq<Item>, end: string, room: nat) returns (ts: seq<Token>)
    requires AllPrint(pieces, items) && Spaced(pieces) && AllIn(end, Space) && room >= |pieces|
    ensures MeetsAll(ts, items) && Lex(Joined(pieces, end), room) == Tokens(ts + [EOF])
    ensures forall i :: 0 <= i < |ts| ==> ts[i].kind != TokEof
  {
    hide Prints, Meets, Lex, AllIn, Spaced, Scans, Joined;
    ts := PrintedScans(pieces, items, end);
    LexExact(Joined(pieces, end), room, ts);
    var same := LexEnds(Joined(pieces, end), room);
    assert ts == (ts + [EOF])[..|ts|] == (same + [EOF])[..|same|] == same;
  }

  lemma {:induction false} BodyBeforeEof(ts: seq<Token>)
    requires forall i :: 0 <= i < |ts| ==> ts[i].kind != TokEof
    ensures Body(ts + [EOF]) == ts
  {
    assert forall i :: 0 <= i < |ts| ==> (ts + [EOF])[i] == ts[i];
    assert (ts + [EOF])[|ts|] == EOF;
    assert (ts + [EOF])[..|ts|] == ts;
  }

  /**
   Every printing of a statement within the limits, with any casing of its keywords, any
   spelling of its numbers and any spacing, is read back as that statement.
   */
  lemma RoundTrip(ast: Ast, pieces: seq<Piece>, end: string, room: nat)
    requires WithinLimits(ast) && AllPrint(pieces, Items(ast)) && Spaced(pieces) && AllIn(end, Space)
    requires room >= |pieces|
    ensures Lex(Joined(pieces, end), room).Tokens?
    ensures Feed(Body(Lex(Joined(pieces, end), room).tokens)) == Done(ast)
  {
    hide Lex, Feed, Items, WithinLimits, Prints, Meets, MeetsAll;
    var ts := LexJoined(pieces, Items(ast), end, room);
    BodyBeforeEof(ts);
    hide Body;
    GrammarExact(ts + [EOF], ast);
  }

  // ----- a printer -----

  function Digits(n: nat): (s: string)
    ensures s != "" && AllDigits(s) && Decimal(s) == n
  {
    var last := [(n % 10 + '0' as int) as char];
    if n < 10 then last else
    var s := Digits(n / 10) + last;
    assert s[..|s| - 1] == Digits(n / 10);
    s
  }

  /** The decimal text of an integer. */
  function DecimalText(v: int): string {
    if v < 0 then "-" + Digits(-v) else Digits(v)
  }

  lemma {:induction false} DigitsLength(n: nat, k: nat)
    requires n < Pow10(k) && k > 0
    ensures |Digits(n)| <= k
  {
    if n >= 10 { DigitsLength(n / 10, k - 1); }
  }

  /** Every int32, printed in decimal, is the number it was. */
  lemma ParseDecimalText(v: int32)
    ensures ParseInt32(DecimalText(v)) == Some(v) && IsNumberText(DecimalText(v)) && |DecimalText(v)| <= 11
  {
    var w: int := v;
    var n: nat := if w < 0 then -w else w;
    var digits := Digits(n);
    assert IsDigit(digits[0]);
    assert Pow10(10) == 10_000_000_000;
    DigitsLength(n, 10);
    if v < 0 {
      assert DecimalText(v)[1..] == digits;
    }
  }

  function Lexeme(item: Item): string {
    match item
    case Kind(kind) => Spelling(kind)
    case Text(kind, value) => if kind == TokString then ['"'] + (value + ['"']) else value
    case Number(id) => DecimalText(id)
  }

  function Print(ast: Ast): string {
    Joined(Pieces(Items(ast)), "")
  }

  function Pieces(items: seq<Item>): seq<Piece> {
    seq(|items|, i requires 0 <= i < |items| => Piece(" ", Lexeme(items[i])))
  }

  /** The statements that have a text: names are names, strings have no quote or NUL, a number is one. */
  ghost predicate Printable(ast: Ast) {
    match ast
    case AstUnknown => false
    case AstInsert(i) => IsName(i.tableName) && AllIn(i.name, Quoted)
    case AstSelect(q) =>
      && IsName(q.tableName)
      && (forall c :: c in q.columns ==> IsName(c))
      && (q.hasWhere ==> IsName(q.whereColumn)
                         && if q.whereValueType == LiteralNumber then IsNumberText(q.whereValue)
                            else AllIn(q.whereValue, Quoted))
  }

  ghost predicate AllWritten(items: seq<Item>) {
    forall i :: 0 <= i < |items| ==> Prints(Lexeme(items[i]), items[i])
  }

  lemma AllWrittenJoin(x: seq<Item>, y: seq<Item>)
    requires AllWritten(x) && AllWritten(y)
    ensures AllWritten(x + y)
  {
    hide Prints, Lexeme;
  }

  lemma NameWritten(name: string)
    requires IsName(name) && |name| <= MAX_NAME
    ensures Prints(Lexeme(Text(TokIdentifier, name)), Text(TokIdentifier, name))
  {
    hide SameLetters, AllIn;
    assert Spells(name, Token(TokIdentifier, name));
  }

  lemma StringWritten(value: string)
    requires AllIn(value, Quoted) && |value| <= MAX_NAME
    ensures Prints(Lexeme(Text(TokString, value)), Text(TokString, value))
  {
    assert Spells(['"'] + (value + ['"']), Token(TokString, value));
  }

  lemma NumeralWritten(value: string)
    requires IsNumberText(value) && |value| <= MAX_NAME
    ensures Prints(Lexeme(Text(TokNumber, value)), Text(TokNumber, value))
  {
    assert Spells(value, Token(TokNumber, value));
  }

  lemma NumberWritten(id: int32)
    ensures Prints(Lexeme(Number(id)), Number(id))
  {
    hide ParseInt32, IsNumberText;
    ParseDecimalText(id);
    assert Spells(DecimalText(id), Token(TokNumber, DecimalText(id)));
  }

  lemma {:induction false} ColumnsWritten(columns: seq<string>)
    requires forall c :: c in columns ==> IsName(c) && |c| <= MAX_NAME
    ensures AllWritten(ColumnItems(columns))
  {
    hide IsName, Prints, Lexeme;
    if columns != [] {
      var front, name := columns[..|columns| - 1], columns[|columns| - 1];
      NameWritten(name);
      KeywordWritten(TokComma);
      ColumnsWritten(front);
    }
  }

  lemma KeywordWritten(kind: TokenType)
    requires IsKeyword(kind) || IsMark(kind)
    ensures Prints(Lexeme(Kind(kind)), Kind(kind))
  {
    assert Spells(Spelling(kind), Token(kind, Spelling(kind)));
  }

  lemma WrittenInsert(i: InsertQuery)
    requires Printable(AstInsert(i)) && WithinLimits(AstInsert(i))
    ensures AllWritten(Items(AstInsert(i)))
  {
    hide Prints, Lexeme;
    NameWritten(i.tableName);
    NumberWritten(i.id);
    StringWritten(i.name);
    KeywordWritten(TokInsert);
    KeywordWritten(TokInto);
    KeywordWritten(TokValues);
    KeywordWritten(TokLparen);
    KeywordWritten(TokComma);
    KeywordWritten(TokRparen);
    KeywordWritten(TokSemicolon);
  }

  lemma WrittenWhere(q: SelectQuery)
    requires Printable(AstSelect(q)) && WithinLimits(AstSelect(q)) && q.hasWhere
    ensures AllWritten(WhereItems(q))
  {
    hide Prints, Lexeme;
    if q.whereValueType == LiteralNumber { NumeralWritten(q.whereValue); } else { StringWritten(q.whereValue); }
    NameWritten(q.whereColumn);
    KeywordWritten(TokWhere);
    KeywordWritten(TokEqual);
  }

  lemma WrittenSelect(q: SelectQuery)
    requires Printable(AstSelect(q)) && WithinLimits(AstSelect(q))
    ensures AllWritten(Items(AstSelect(q)))
  {
    hide Prints, Lexeme, ColumnItems;
    KeywordWritten(TokSelect);
    KeywordWritten(TokStar);
    KeywordWritten(TokFrom);
    KeywordWritten(TokSemicolon);
    NameWritten(q.tableName);
    assert AllWritten(ListItems(q)) by { ColumnsWritten(q.columns); }
    if q.hasWhere { WrittenWhere(q); }
    assert AllWritten(WhereItems(q));
    var head := [Kind(TokSelect)] + ListItems(q);
    var table := [Kind(TokFrom), Text(TokIdentifier, q.tableName)];
    hide ListItems, WhereItems;
    AllWrittenJoin([Kind(TokSelect)], ListItems(q));
    AllWrittenJoin(head, table);
    AllWrittenJoin(head + table, WhereItems(q));
    AllWrittenJoin(head + table + WhereItems(q), [Kind(TokSemicolon)]);
  }

  lemma WrittenStatement(ast: Ast)
    requires Printable(ast) && WithinLimits(ast)
    ensures AllWritten(Items(ast))
  {
    hide AllWritten, Items;
    match ast
    case AstInsert(i) => WrittenInsert(i);
    case AstSelect(q) => WrittenSelect(q);
  }

  lemma PiecesPrint(items: seq<Item>)
    requires AllWritten(items)
    ensures AllPrint(Pieces(items), items) && Spaced(Pieces(items))
  {
    hide Prints, Lexeme, Apart;
  }

  /** Printing and reading: for every statement that can be written, any int32 included. */
  lemma PrintReadsBack(ast: Ast, room: nat)
    requires WithinLimits(ast) && Printable(ast) && room >= |Items(ast)|
    ensures Lex(Print(ast), room).Tokens? && Feed(Body(Lex(Print(ast), room).tokens)) == Done(ast)
  {
    hide Lex, Feed, Body, WithinLimits, Printable, Prints, Lexeme, Items, Joined;
    var items := Items(ast);
    WrittenStatement(ast);
    var pieces := Pieces(items);
    PiecesPrint(items);
    RoundTrip(ast, pieces, "", room);
  }
}
