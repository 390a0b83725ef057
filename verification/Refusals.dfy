/**
 Why the parser refuses a list of tokens (src/parser.c), in terms of the statement forms: how
 far the list is the beginning of a statement, and what the first token is that cannot follow.
 */
module Refusals {
  import opened Bytes
  import opened Sql
  import opened Tokenizer
  import opened Lexemes
  import opened Parser
  import opened SqlText

  /** The tokens are the first of some statement within the limits. */
  ghost predicate Begins(b: seq<Token>) {
    exists ast: Ast, n: nat :: BeginsWith(b, ast, n)
  }

  ghost predicate BeginsWith(b: seq<Token>, ast: Ast, n: nat) {
    n <= |Items(ast)| && WithinLimits(ast) && MeetsAll(b, Items(ast)[..n])
  }

  /** Ten columns and one more comma. */
  ghost predicate TenAndComma(b: seq<Token>) {
    exists columns :: ColumnsFit(columns) && |columns| == 10
                      && MeetsAll(b, [Kind(TokSelect)] + ColumnItems(columns) + [Kind(TokComma)])
  }

  /**
   What has not been refused yet. The one list that no statement goes on from, and that is
   refused only with the next token, has a comma behind the tenth column.
   */
  ghost predicate Readable(b: seq<Token>) {
    Begins(b) || TenAndComma(b)
  }

  ghost predicate Accepted(b: seq<Token>) {
    exists ast :: WithinLimits(ast) && MeetsAll(b, Items(ast))
  }

  /** Why the token at k cannot follow the readable tokens before it. */
  ghost function Reason(b: seq<Token>, k: nat): ParseStatus
    requires k < |b|
  {
    if Accepted(b[..k]) then ParseTrailingTokens
    else if k == 0 then ParseError
    else
      var before, t := b[k - 1].kind, b[k];
      match t.kind
      case TokIdentifier =>
        if |t.value| <= 31 then ParseError
        else if before in {TokFrom, TokInto} then ParseTableNameTooLong
        else if before in {TokSelect, TokWhere} || (before == TokComma && b[0].kind == TokSelect && k < 20) then
          ParseIdentifierTooLong
        else ParseError
      case TokString =>
        if |t.value| > 31 && (before == TokEqual || (before == TokComma && b[0].kind == TokInsert)) then
          ParseStringTooLong
        else ParseError
      case TokNumber =>
        if (before == TokEqual && |t.value| > 31) || before == TokLparen then ParseIntegerOutOfRange
        else ParseError
      case _ => ParseError
  }

  // ----- what the machine has not refused is the beginning of a statement -----

  lemma PrefixBegins(b: seq<Token>, read: seq<Item>, ast: Ast)
    requires MeetsAll(b, read) && WithinLimits(ast) && read <= Items(ast)
    ensures Begins(b)
  {
    hide Items, Meets, WithinLimits;
    assert Items(ast)[..|read|] == read;
    assert BeginsWith(b, ast, |read|);
  }

  lemma InsertBegins(b: seq<Token>, st: State)
    requires MeetsAll(b, Read(st)) && Checked(st)
    requires st.Start? || st.InsInsert? || st.InsInto? || st.InsTable? || st.InsValues? || st.InsOpen? || st.InsId?
             || st.InsComma? || st.InsName? || st.InsClose?
    ensures Begins(b)
  {
    hide MeetsAll;
    var i :=
      if st.Start? || st.InsInsert? || st.InsInto? then EMPTY_INSERT
      else if st.InsName? || st.InsClose? then st.i
      else st.i.(name := "");
    PrefixBegins(b, Read(st), AstInsert(i));
  }

  lemma ListBegins(b: seq<Token>, st: State)
    requires MeetsAll(b, Read(st)) && Checked(st)
    requires st.SelList? || st.SelColumns? || st.SelStar? || st.SelFrom?
    ensures Begins(b)
  {
    hide MeetsAll, ColumnItems;
    var q := if st.SelList? then EMPTY_SELECT.(selectAll := true) else st.q.(tableName := "");
    PrefixBegins(b, Read(st), AstSelect(q));
  }

  lemma CommaReads(b: seq<Token>, st: State)
    requires MeetsAll(b, Read(st)) && Checked(st) && st.SelComma?
    ensures Readable(b)
  {
    hide MeetsAll;
    if |st.q.columns| < 10 {
      var columns := st.q.columns + [""];
      assert columns[..|columns| - 1] == st.q.columns;
      PrefixBegins(b, Read(st), AstSelect(st.q.(tableName := "", columns := columns)));
    }
  }

  lemma TableBegins(b: seq<Token>, st: State)
    requires MeetsAll(b, Read(st)) && Checked(st)
    requires st.SelTable? || st.SelWhere? || st.SelColumn? || st.SelEqual? || st.SelValue?
    ensures Begins(b)
  {
    hide MeetsAll, ColumnItems, ColumnsFit;
    var q :=
      if st.SelWhere? then st.q.(whereColumn := "", whereValue := "")
      else if st.SelColumn? || st.SelEqual? then st.q.(whereValue := "")
      else st.q;
    PrefixBegins(b, Read(st), AstSelect(q));
  }

  lemma UnrefusedIsReadable(b: seq<Token>)
    requires !Feed(b).Failed?
    ensures Readable(b)
  {
    hide Feed, Read, Checked, MeetsAll, Begins, TenAndComma;
    FeedReads(b);
    var st := Feed(b);
    if st.SelComma? {
      CommaReads(b, st);
    } else if st.SelList? || st.SelColumns? || st.SelStar? || st.SelFrom? {
      ListBegins(b, st);
    } else if st.SelTable? || st.SelWhere? || st.SelColumn? || st.SelEqual? || st.SelValue? {
      TableBegins(b, st);
    } else if st.Done? {
      DoneBegins(b, st);
    } else {
      InsertBegins(b, st);
    }
  }

  lemma DoneBegins(b: seq<Token>, st: State)
    requires MeetsAll(b, Read(st)) && Checked(st) && st.Done?
    ensures Begins(b) && Accepted(b)
  {
    hide MeetsAll, Items, WithinLimits;
    PrefixBegins(b, Items(st.ast), st.ast);
  }

  // ----- and the other way round -----

  /** A token that meets the item. */
  function TokenFor(item: Item): (t: Token)
    ensures Meets(t, item)
  {
    match item
    case Kind(kind) => Token(kind, "")
    case Text(kind, value) => Token(kind, value)
    case Number(id) =>
      ParseDecimalText(id);
      Token(TokNumber, DecimalText(id))
  }

  lemma AcceptedIsDone(b: seq<Token>, ast: Ast)
    requires WithinLimits(ast) && MeetsAll(b, Items(ast))
    ensures Feed(b) == Done(ast)
  {
    hide Feed, Items, MeetsAll, WithinLimits;
    match ast
    case AstSelect(q) => AcceptsSelect(b, q);
    case AstInsert(i) => AcceptsInsert(b, i);
    case AstUnknown => NoUnknown();
  }

  lemma NoUnknown()
    ensures !WithinLimits(AstUnknown)
  {
  }

  lemma BeginningIsUnrefused(b: seq<Token>, ast: Ast, n: nat)
    requires BeginsWith(b, ast, n)
    ensures !Feed(b).Failed?
  {
    hide Feed, Items, Meets, WithinLimits;
    var items := Items(ast);
    var rest := seq(|items| - n, i requires 0 <= i < |items| - n => TokenFor(items[n + i]));
    var whole := b + rest;
    forall i | 0 <= i < |whole| ensures Meets(whole[i], items[i]) {
      if i < n {
        assert Meets(b[i], items[..n][i]) && items[..n][i] == items[i] && whole[i] == b[i];
      } else {
        assert whole[i] == rest[i - n] == TokenFor(items[i]);
      }
    }
    AcceptedIsDone(whole, ast);
    assert whole[..n] == b;
    if n < |whole| { DoneOnlyAtEnd(whole, n); } else { assert whole == b; }
  }

  lemma TenAndCommaIsUnrefused(b: seq<Token>, columns: seq<string>)
    requires ColumnsFit(columns) && |columns| == 10
    requires MeetsAll(b, [Kind(TokSelect)] + ColumnItems(columns) + [Kind(TokComma)])
    ensures !Feed(b).Failed?
  {
    hide Feed, ColumnItems, Meets;
    ColumnItemsAt(columns, 0);
    var items := [Kind(TokSelect)] + ColumnItems(columns) + [Kind(TokComma)];
    assert |b| == 21 && Meets(b[0], items[0]) && Meets(b[20], items[20]);
    assert b[0].kind == TokSelect && b[20].kind == TokComma by { KindsMeet(b, items); }
    forall i | 0 <= i < 19 ensures Meets(b[1..20][i], ColumnItems(columns)[i]) {
      assert Meets(b[i + 1], items[i + 1]);
    }
    AcceptsColumns(b, columns, 10);
    FeedNext(b, 20);
    assert b[..21] == b;
  }

  lemma KindsMeet(b: seq<Token>, items: seq<Item>)
    requires |b| == |items| == 21 && items[0] == Kind(TokSelect) && items[20] == Kind(TokComma)
    requires Meets(b[0], items[0]) && Meets(b[20], items[20])
    ensures b[0].kind == TokSelect && b[20].kind == TokComma
  {
  }

  /** The parser has not refused a list exactly if it begins a statement, or has the one comma too many. */
  lemma ReadableExact(b: seq<Token>)
    ensures !Feed(b).Failed? <==> Readable(b)
  {
    hide Feed, ColumnItems, MeetsAll, BeginsWith, ColumnsFit;
    if !Feed(b).Failed? { UnrefusedIsReadable(b); }
    forall ast, n: nat | BeginsWith(b, ast, n) ensures !Feed(b).Failed? { BeginningIsUnrefused(b, ast, n); }
    forall columns | ColumnsFit(columns) && |columns| == 10
                     && MeetsAll(b, [Kind(TokSelect)] + ColumnItems(columns) + [Kind(TokComma)])
      ensures !Feed(b).Failed?
    {
      TenAndCommaIsUnrefused(b, columns);
    }
  }

  /** It is done exactly with the accepted lists. */
  lemma AcceptedExact(b: seq<Token>)
    ensures Feed(b).Done? <==> Accepted(b)
  {
    hide Feed, Items, MeetsAll, WithinLimits, Read, Checked;
    if Feed(b).Done? {
      FeedReads(b);
      DoneBegins(b, Feed(b));
    }
    forall ast | WithinLimits(ast) && MeetsAll(b, Items(ast)) ensures Feed(b).Done? { AcceptedIsDone(b, ast); }
  }

  // ----- the reason -----

  /** What was read last, and first. */
  ghost predicate Behind(st: State, before: TokenType, first: TokenType, k: nat) {
    match st
    case SelList => before == TokSelect
    case SelColumns(_) => before == TokIdentifier
    case SelComma(q) => before == TokComma && first == TokSelect && k == 2 * |q.columns| + 1
    case SelStar(_) => before == TokStar
    case SelFrom(_) => before == TokFrom
    case SelTable(_) => before == TokIdentifier
    case SelWhere(_) => before == TokWhere
    case SelColumn(_) => before == TokIdentifier
    case SelEqual(_) => before == TokEqual
    case SelValue(_) => before in {TokNumber, TokString}
    case InsInsert => before == TokInsert
    case InsInto => before == TokInto
    case InsTable(_) => before == TokIdentifier
    case InsValues(_) => before == TokValues
    case InsOpen(_) => before == TokLparen
    case InsId(_) => before == TokNumber
    case InsComma(_) => before == TokComma && first == TokInsert
    case InsName(_) => before == TokString
    case InsClose(_) => before == TokRparen
    case _ => false
  }

  lemma BehindInsert(b: seq<Token>, st: State)
    requires MeetsAll(b, Read(st))
    requires st.InsInsert? || st.InsInto? || st.InsTable? || st.InsValues? || st.InsOpen? || st.InsId?
             || st.InsComma? || st.InsName? || st.InsClose?
    ensures b != [] && Behind(st, b[|b| - 1].kind, b[0].kind, |b|)
  {
    hide ParseInt32;
    var read := Read(st);
    assert Meets(b[|b| - 1], read[|read| - 1]) && Meets(b[0], read[0]);
  }

  lemma BehindSelect(b: seq<Token>, st: State)
    requires MeetsAll(b, Read(st)) && Checked(st)
    requires st.SelList? || st.SelStar? || st.SelFrom? || st.SelTable? || st.SelWhere? || st.SelColumn? || st.SelEqual?
             || st.SelValue?
    ensures b != [] && Behind(st, b[|b| - 1].kind, b[0].kind, |b|)
  {
    hide ParseInt32, ListItems;
    var read := Read(st);
    assert Meets(b[|b| - 1], read[|read| - 1]);
  }

  lemma BehindColumns(b: seq<Token>, st: State)
    requires MeetsAll(b, Read(st)) && Checked(st) && (st.SelColumns? || st.SelComma?)
    ensures b != [] && Behind(st, b[|b| - 1].kind, b[0].kind, |b|)
  {
    hide ParseInt32, ColumnItems;
    var read, columns := Read(st), st.q.columns;
    ColumnItemsAt(columns, |columns| - 1);
    assert read[0] == Kind(TokSelect);
    assert Meets(b[|b| - 1], read[|read| - 1]) && Meets(b[0], read[0]);
  }

  lemma NothingBehind(b: seq<Token>, st: State)
    requires MeetsAll(b, Read(st)) && Checked(st) && !st.Failed? && !st.Done?
    ensures if st.Start? then b == [] else b != [] && Behind(st, b[|b| - 1].kind, b[0].kind, |b|)
  {
    hide MeetsAll, Behind, Checked;
    if st.Start? {
      hide Read;
      StartIsEmpty(b);
    } else if st.SelColumns? || st.SelComma? {
      BehindColumns(b, st);
    } else if st.SelList? || st.SelStar? || st.SelFrom? || st.SelTable? || st.SelWhere? || st.SelColumn?
              || st.SelEqual? || st.SelValue? {
      BehindSelect(b, st);
    } else {
      hide Read;
      BehindInsert(b, st);
    }
  }

  lemma StartIsEmpty(b: seq<Token>)
    requires MeetsAll(b, Read(Start))
    ensures b == []
  {
  }

  lemma StepReason(b: seq<Token>, k: nat, status: ParseStatus)
    requires k < |b| && !Feed(b[..k]).Failed? && Step(Feed(b[..k]), b[k]) == Failed(status)
    ensures status == Reason(b, k)
  {
    hide Feed, Read, Checked, MeetsAll, Behind, Accepted, ListStep, TableStep, InsertStep;
    var c, st := b[..k], Feed(b[..k]);
    AcceptedExact(c);
    if !st.Done? {
      FeedReads(c);
      NothingBehind(c, st);
      if !st.Start? {
        assert c[|c| - 1] == b[k - 1] && c[0] == b[0];
        ReasonBehind(st, b, k, status);
      }
    }
  }

  lemma ReasonBehind(st: State, b: seq<Token>, k: nat, status: ParseStatus)
    requires 0 < k < |b| && !st.Failed? && !st.Done? && !st.Start? && !Accepted(b[..k])
    requires Behind(st, b[k - 1].kind, b[0].kind, k) && Step(st, b[k]) == Failed(status)
    ensures status == Reason(b, k)
  {
    hide ParseInt32, Accepted;
  }

  /** A list is refused exactly at the first token that cannot follow, and for that token's reason. */
  lemma RefusalExact(b: seq<Token>, status: ParseStatus)
    ensures Feed(b) == Failed(status) <==>
            exists k :: 0 <= k < |b| && Readable(b[..k]) && !Readable(b[..k + 1]) && Reason(b, k) == status
  {
    hide Feed, Step, Readable, Reason;
    forall k | 0 <= k < |b| && Readable(b[..k]) && !Readable(b[..k + 1])
      ensures Feed(b) == Failed(Reason(b, k))
    {
      ReadableExact(b[..k]);
      ReadableExact(b[..k + 1]);
      FeedNext(b, k);
      StepReason(b, k, Feed(b[..k + 1]).status);
      FailureStays(b, k + 1);
    }
    if Feed(b) == Failed(status) {
      assert b[..|b|] == b;
      var k := FirstRefused(b, |b|);
    }
  }

  lemma {:induction false} FirstRefused(b: seq<Token>, n: nat) returns (k: nat)
    requires n <= |b| && Feed(b[..n]).Failed?
    ensures k < n && Readable(b[..k]) && !Readable(b[..k + 1])
  {
    hide Feed, Step, Readable;
    if n == 0 {
      FeedStart(b);
    } else {
      ReadableExact(b[..n - 1]);
      ReadableExact(b[..n]);
      if Feed(b[..n - 1]).Failed? { k := FirstRefused(b, n - 1); } else { k := n - 1; }
    }
  }

  /** Every status of the parser, by what the tokens before the first EOF are. */
  lemma StatusExact(ts: seq<Token>)
    ensures Parse(ts) == ParseOk <==> Accepted(Body(ts))
    ensures Parse(ts) == ParseUnexpectedEof <==> Readable(Body(ts)) && !Accepted(Body(ts))
    ensures !Readable(Body(ts)) ==>
              exists k :: 0 <= k < |Body(ts)| && Readable(Body(ts)[..k]) && !Readable(Body(ts)[..k + 1])
                          && Parse(ts) == Reason(Body(ts), k)
  {
    hide Feed, Body, Readable, Accepted, Reason;
    var b := Body(ts);
    ReadableExact(b);
    AcceptedExact(b);
    OkOnlyWhenDone(b);
    if Feed(b).Failed? {
      NeverEof(b);
      RefusalExact(b, Feed(b).status);
    }
  }

  /** The end of the tokens is never itself a failure of the machine. */
  lemma {:induction false} NeverEof(b: seq<Token>)
    requires Feed(b).Failed?
    ensures Feed(b).status != ParseUnexpectedEof
  {
    hide ParseInt32;
    if b != [] && Feed(b[..|b| - 1]).Failed? { NeverEof(b[..|b| - 1]); }
  }
}
