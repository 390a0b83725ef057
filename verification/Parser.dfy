/**
 The recursive-descent parser (src/parser.c). Its specification is a machine that reads one
 token at a time; the methods are proved to compute that machine's verdict, and the grammar
 is proved to be what the machine accepts.
 */
module Parser {
  import opened Bytes
  import opened Sql
  import opened Tokenizer

  datatype ParseStatus =
    | ParseOk
    | ParseError
    | ParseTrailingTokens
    | ParseUnexpectedEof
    | ParseTableNameTooLong
    | ParseIdentifierTooLong
    | ParseStringTooLong
    | ParseIntegerOutOfRange

  const EMPTY_SELECT: SelectQuery := SelectQuery("", false, [], false, "", "", LiteralNumber)
  const EMPTY_INSERT: InsertQuery := InsertQuery("", 0, "")

  // ----- the machine -----

  /** What has been read of a statement. */
  datatype State =
    | Start
    | SelList | SelColumns(q: SelectQuery) | SelComma(q: SelectQuery) | SelStar(q: SelectQuery)
    | SelFrom(q: SelectQuery) | SelTable(q: SelectQuery) | SelWhere(q: SelectQuery)
    | SelColumn(q: SelectQuery) | SelEqual(q: SelectQuery) | SelValue(q: SelectQuery)
    | InsInsert | InsInto | InsTable(i: InsertQuery) | InsValues(i: InsertQuery) | InsOpen(i: InsertQuery)
    | InsId(i: InsertQuery) | InsComma(i: InsertQuery) | InsName(i: InsertQuery) | InsClose(i: InsertQuery)
    | Done(ast: Ast)
    | Failed(status: ParseStatus)

  function Fits(value: string, tooLong: ParseStatus, next: State): State {
    if |value| > MAX_NAME then Failed(tooLong) else next
  }

  /** Reading one token that is not the end. */
  function Step(st: State, t: Token): State {
    match st
    case Failed(_) => st
    case Done(_) => Failed(ParseTrailingTokens)
    case Start =>
      if t.kind == TokSelect then SelList
      else if t.kind == TokInsert then InsInsert
      else Failed(ParseError)
    case SelList => ListStep(st, t)
    case SelColumns(_) => ListStep(st, t)
    case SelComma(_) => ListStep(st, t)
    case SelStar(_) => ListStep(st, t)
    case SelFrom(_) => TableStep(st, t)
    case SelTable(_) => TableStep(st, t)
    case SelWhere(_) => TableStep(st, t)
    case SelColumn(_) => TableStep(st, t)
    case SelEqual(_) => TableStep(st, t)
    case SelValue(_) => TableStep(st, t)
    case _ => InsertStep(st, t)
  }

  function ListStep(st: State, t: Token): State {
    match (st, t.kind)
    case (SelList, TokStar) => SelStar(EMPTY_SELECT.(selectAll := true))
    case (SelList, TokIdentifier) =>
      Fits(t.value, ParseIdentifierTooLong, SelColumns(EMPTY_SELECT.(columns := [t.value])))
    case (SelColumns(q), TokComma) => SelComma(q)
    case (SelColumns(q), TokFrom) => SelFrom(q)
    case (SelComma(q), TokIdentifier) =>
      if |q.columns| >= MAX_COLUMNS then Failed(ParseError)
      else Fits(t.value, ParseIdentifierTooLong, SelColumns(q.(columns := q.columns + [t.value])))
    case (SelStar(q), TokFrom) => SelFrom(q)
    case (_, _) => Failed(ParseError)
  }

  function TableStep(st: State, t: Token): State {
    match (st, t.kind)
    case (SelFrom(q), TokIdentifier) => Fits(t.value, ParseTableNameTooLong, SelTable(q.(tableName := t.value)))
    case (SelTable(q), TokWhere) => SelWhere(q.(hasWhere := true))
    case (SelTable(q), TokSemicolon) => Done(AstSelect(q))
    case (SelWhere(q), TokIdentifier) => Fits(t.value, ParseIdentifierTooLong, SelColumn(q.(whereColumn := t.value)))
    case (SelColumn(q), TokEqual) => SelEqual(q)
    case (SelEqual(q), TokNumber) =>
      Fits(t.value, ParseIntegerOutOfRange, SelValue(q.(whereValue := t.value, whereValueType := LiteralNumber)))
    case (SelEqual(q), TokString) =>
      Fits(t.value, ParseStringTooLong, SelValue(q.(whereValue := t.value, whereValueType := LiteralString)))
    case (SelValue(q), TokSemicolon) => Done(AstSelect(q))
    case (_, _) => Failed(ParseError)
  }

  function InsertStep(st: State, t: Token): State {
    match (st, t.kind)
    case (InsInsert, TokInto) => InsInto
    case (InsInto, TokIdentifier) => Fits(t.value, ParseTableNameTooLong, InsTable(EMPTY_INSERT.(tableName := t.value)))
    case (InsTable(i), TokValues) => InsValues(i)
    case (InsValues(i), TokLparen) => InsOpen(i)
    case (InsOpen(i), TokNumber) =>
      (match ParseInt32(t.value)
       case None => Failed(ParseIntegerOutOfRange)
       case Some(id) => InsId(i.(id := id)))
    case (InsId(i), TokComma) => InsComma(i)
    case (InsComma(i), TokString) => Fits(t.value, ParseStringTooLong, InsName(i.(name := t.value)))
    case (InsName(i), TokRparen) => InsClose(i)
    case (InsClose(i), TokSemicolon) => Done(AstInsert(i))
    case (_, _) => Failed(ParseError)
  }

  function Feed(ts: seq<Token>): State {
    if ts == [] then Start else Step(Feed(ts[..|ts| - 1]), ts[|ts| - 1])
  }

  /** The tokens before the first EOF; the parser never looks further. */
  function Body(ts: seq<Token>): (b: seq<Token>)
    ensures |b| <= |ts| && b == ts[..|b|]
    ensures forall i :: 0 <= i < |b| ==> b[i].kind != TokEof
    ensures |b| < |ts| ==> ts[|b|].kind == TokEof
  {
    if ts == [] || ts[0].kind == TokEof then [] else
    var b := Body(ts[1..]);
    assert [ts[0]] + b == ts[..1 + |b|];
    [ts[0]] + b
  }

  function Verdict(st: State): ParseStatus {
    match st
    case Done(_) => ParseOk
    case Failed(status) => status
    case _ => ParseUnexpectedEof
  }

  function Parse(ts: seq<Token>): ParseStatus {
    Verdict(Feed(Body(ts)))
  }

  lemma FeedNext(ts: seq<Token>, k: nat)
    requires k < |ts|
    ensures Feed(ts[..k + 1]) == Step(Feed(ts[..k]), ts[k])
  {
    assert ts[..k + 1][..k] == ts[..k];
  }

  /** A failure is final. */
  lemma {:induction false} FailureStays(ts: seq<Token>, k: nat)
    requires k <= |ts| && Feed(ts[..k]).Failed?
    ensures Feed(ts) == Feed(ts[..k])
    decreases |ts| - k
  {
    if k < |ts| {
      FeedNext(ts, k);
      FailureStays(ts, k + 1);
    } else {
      assert ts[..k] == ts;
    }
  }

  /** Only a complete statement is accepted. */
  lemma {:induction false} OkOnlyWhenDone(ts: seq<Token>)
    ensures Verdict(Feed(ts)) == ParseOk <==> Feed(ts).Done?
  {
    if ts != [] { OkOnlyWhenDone(ts[..|ts| - 1]); }
  }

  // ----- prefixes and extensions -----

  /** The machine is done only at the very end of a statement. */
  lemma {:induction false} DoneOnlyAtEnd(b: seq<Token>, k: nat)
    requires Feed(b).Done? && k < |b|
    ensures !Feed(b[..k]).Done? && !Feed(b[..k]).Failed?
  {
    if Feed(b[..k]).Failed? { FailureStays(b, k); }
    FeedNext(b, k);
    if Feed(b[..k]).Done? { FailureStays(b, k + 1); }
  }

  lemma BodyOfPlain(b: seq<Token>)
    requires forall i :: 0 <= i < |b| ==> b[i].kind != TokEof
    ensures Body(b) == b
  {
  }

  /** Cutting an accepted statement short anywhere is always an unexpected end. */
  lemma EveryProperPrefixIsUnfinished(ts: seq<Token>, k: nat)
    requires Parse(ts) == ParseOk && k < |Body(ts)|
    ensures Parse(ts[..k]) == ParseUnexpectedEof
  {
    hide Step, Feed, Body;
    var b := Body(ts);
    OkOnlyWhenDone(b);
    DoneOnlyAtEnd(b, k);
    assert ts[..k] == b[..k];
    BodyOfPlain(b[..k]);
  }

  /** Anything after an accepted statement is a trailing token. */
  lemma EveryExtensionIsTrailing(ts: seq<Token>, more: seq<Token>)
    requires Parse(ts) == ParseOk && more != []
    requires forall i :: 0 <= i < |more| ==> more[i].kind != TokEof
    ensures Parse(Body(ts) + more) == ParseTrailingTokens
  {
    hide Feed, Body;
    var b := Body(ts);
    OkOnlyWhenDone(b);
    var all := b + more;
    BodyOfPlain(all);
    assert all[..|b|] == b;
    FeedNext(all, |b|);
    assert Feed(all[..|b| + 1]) == Failed(ParseTrailingTokens);
    hide Step;
    FailureStays(all, |b| + 1);
  }

  // ----- the grammar -----

  /** What one token of a statement must be. */
  datatype Item = Kind(kind: TokenType) | Text(kind: TokenType, value: string) | Number(id: int32)

  predicate Meets(t: Token, item: Item) {
    match item
    case Kind(kind) => t.kind == kind
    case Text(kind, value) => t.kind == kind && t.value == value
    case Number(id) => t.kind == TokNumber && ParseInt32(t.value) == Some(id)
  }

  ghost predicate MeetsAll(ts: seq<Token>, items: seq<Item>) {
    |ts| == |items| && forall i :: 0 <= i < |ts| ==> Meets(ts[i], items[i])
  }

  function ColumnItems(columns: seq<string>): (r: seq<Item>)
    ensures columns != [] ==> r != []
  {
    if columns == [] then [] else
    if |columns| == 1 then [Text(TokIdentifier, columns[0])] else
    ColumnItems(columns[..|columns| - 1]) + [Kind(TokComma), Text(TokIdentifier, columns[|columns| - 1])]
  }

  function ListItems(q: SelectQuery): seq<Item> {
    if q.selectAll then [Kind(TokStar)] else ColumnItems(q.columns)
  }

  function ValueItem(q: SelectQuery): Item {
    Text(if q.whereValueType == LiteralNumber then TokNumber else TokString, q.whereValue)
  }

  function WhereItems(q: SelectQuery): seq<Item> {
    if q.hasWhere then [Kind(TokWhere), Text(TokIdentifier, q.whereColumn), Kind(TokEqual), ValueItem(q)] else []
  }

  /** The documented statement forms. */
  function Items(ast: Ast): seq<Item> {
    match ast
    case AstUnknown => []
    case AstSelect(q) =>
      [Kind(TokSelect)] + ListItems(q) + [Kind(TokFrom), Text(TokIdentifier, q.tableName)]
      + WhereItems(q) + [Kind(TokSemicolon)]
    case AstInsert(i) =>
      [Kind(TokInsert), Kind(TokInto), Text(TokIdentifier, i.tableName), Kind(TokValues), Kind(TokLparen),
       Number(i.id), Kind(TokComma), Text(TokString, i.name), Kind(TokRparen), Kind(TokSemicolon)]
  }

  /** The limits of include/sql_limits.h, and unused fields left empty. */
  ghost predicate WithinLimits(ast: Ast) {
    match ast
    case AstUnknown => false
    case AstInsert(i) => |i.tableName| <= 31 && |i.name| <= 31
    case AstSelect(q) =>
      && |q.tableName| <= 31
      && (if q.selectAll then q.columns == [] else ColumnsFit(q.columns))
      && (if q.hasWhere then |q.whereColumn| <= 31 && |q.whereValue| <= 31
          else q.whereColumn == "" && q.whereValue == "" && q.whereValueType == LiteralNumber)
  }

  ghost predicate ColumnsFit(columns: seq<string>) {
    0 < |columns| <= 10 && forall c :: c in columns ==> |c| <= 31
  }

  ghost predicate ListFits(q: SelectQuery) {
    if q.selectAll then q.columns == [] else ColumnsFit(q.columns)
  }

  ghost predicate NoWhere(q: SelectQuery) {
    !q.hasWhere && q.whereColumn == "" && q.whereValue == "" && q.whereValueType == LiteralNumber
  }

  /** The items a state has read, and what it has made sure of. */
  function Read(st: State): seq<Item> {
    match st
    case Start => []
    case SelList => [Kind(TokSelect)]
    case SelColumns(q) => [Kind(TokSelect)] + ColumnItems(q.columns)
    case SelComma(q) => [Kind(TokSelect)] + ColumnItems(q.columns) + [Kind(TokComma)]
    case SelStar(q) => [Kind(TokSelect), Kind(TokStar)]
    case SelFrom(q) => [Kind(TokSelect)] + ListItems(q) + [Kind(TokFrom)]
    case SelTable(q) => UpToTable(q)
    case SelWhere(q) => UpToTable(q) + [Kind(TokWhere)]
    case SelColumn(q) => UpToTable(q) + [Kind(TokWhere), Text(TokIdentifier, q.whereColumn)]
    case SelEqual(q) => UpToTable(q) + [Kind(TokWhere), Text(TokIdentifier, q.whereColumn), Kind(TokEqual)]
    case SelValue(q) => UpToTable(q) + WhereItems(q)
    case InsInsert => Items(AstInsert(EMPTY_INSERT))[..1]
    case InsInto => Items(AstInsert(EMPTY_INSERT))[..2]
    case InsTable(i) => Items(AstInsert(i))[..3]
    case InsValues(i) => Items(AstInsert(i))[..4]
    case InsOpen(i) => Items(AstInsert(i))[..5]
    case InsId(i) => Items(AstInsert(i))[..6]
    case InsComma(i) => Items(AstInsert(i))[..7]
    case InsName(i) => Items(AstInsert(i))[..8]
    case InsClose(i) => Items(AstInsert(i))[..9]
    case Done(ast) => Items(ast)
    case Failed(_) => []
  }

  function UpToTable(q: SelectQuery): seq<Item> {
    [Kind(TokSelect)] + ListItems(q) + [Kind(TokFrom), Text(TokIdentifier, q.tableName)]
  }

  ghost predicate Checked(st: State) {
    match st
    case SelColumns(q) => !q.selectAll && ListFits(q) && NoWhere(q)
    case SelComma(q) => !q.selectAll && ListFits(q) && NoWhere(q)
    case SelStar(q) => q.selectAll && ListFits(q) && NoWhere(q)
    case SelFrom(q) => ListFits(q) && NoWhere(q)
    case SelTable(q) => ListFits(q) && NoWhere(q) && |q.tableName| <= MAX_NAME
    case SelWhere(q) => ListFits(q) && q.hasWhere && |q.tableName| <= MAX_NAME
    case SelColumn(q) => ListFits(q) && q.hasWhere && |q.tableName| <= MAX_NAME && |q.whereColumn| <= MAX_NAME
    case SelEqual(q) => ListFits(q) && q.hasWhere && |q.tableName| <= MAX_NAME && |q.whereColumn| <= MAX_NAME
    case SelValue(q) => q.hasWhere && WithinLimits(AstSelect(q))
    case InsTable(i) => |i.tableName| <= MAX_NAME
    case InsValues(i) => |i.tableName| <= MAX_NAME
    case InsOpen(i) => |i.tableName| <= MAX_NAME
    case InsId(i) => |i.tableName| <= MAX_NAME
    case InsComma(i) => |i.tableName| <= MAX_NAME
    case InsName(i) => WithinLimits(AstInsert(i))
    case InsClose(i) => WithinLimits(AstInsert(i))
    case Done(ast) => WithinLimits(ast)
    case _ => true
  }

  /** One step reads one item, whatever the state, unless it fails. */
  lemma StepReadsInsert(st: State, t: Token) returns (item: Item)
    requires Checked(st) && !Step(st, t).Failed?
    requires st.InsInsert? || st.InsInto? || st.InsTable? || st.InsValues? || st.InsOpen?
    ensures Checked(Step(st, t)) && Meets(t, item) && Read(Step(st, t)) == Read(st) + [item]
  {
    hide ParseInt32;
    var n := Step(st, t);
    item := Read(n)[|Read(n)| - 1];
    assert Meets(t, item);
  }

  lemma StepReadsRow(st: State, t: Token) returns (item: Item)
    requires Checked(st) && !Step(st, t).Failed?
    requires st.InsId? || st.InsComma? || st.InsName? || st.InsClose?
    ensures Checked(Step(st, t)) && Meets(t, item) && Read(Step(st, t)) == Read(st) + [item]
  {
    hide ParseInt32;
    var n := Step(st, t);
    item := Read(n)[|Read(n)| - 1];
    assert Meets(t, item);
  }

  lemma StepReadsStart(st: State, t: Token) returns (item: Item)
    requires Checked(st) && !Step(st, t).Failed?
    requires st.Start? || st.SelList?
    ensures Checked(Step(st, t)) && Meets(t, item) && Read(Step(st, t)) == Read(st) + [item]
  {
    hide ParseInt32;
    var n := Step(st, t);
    item := Read(n)[|Read(n)| - 1];
    assert Meets(t, item);
  }

  lemma StepReadsList(st: State, t: Token) returns (item: Item)
    requires Checked(st) && !Step(st, t).Failed?
    requires st.SelColumns? || st.SelComma? || st.SelStar?
    ensures Checked(Step(st, t)) && Meets(t, item) && Read(Step(st, t)) == Read(st) + [item]
  {
    hide ParseInt32;
    var n := Step(st, t);
    if st.SelComma? {
      item := Text(TokIdentifier, t.value);
      assert n.q.columns[..|n.q.columns| - 1] == st.q.columns;
    } else {
      item := Kind(t.kind);
    }
  }

  lemma StepReadsWhere(st: State, t: Token) returns (item: Item)
    requires Checked(st) && !Step(st, t).Failed?
    requires st.SelWhere? || st.SelColumn? || st.SelEqual? || st.SelValue?
    ensures Checked(Step(st, t)) && Meets(t, item) && Read(Step(st, t)) == Read(st) + [item]
  {
    hide ParseInt32, ColumnItems, ColumnsFit;
    var n := Step(st, t);
    item := Read(n)[|Read(n)| - 1];
    assert Meets(t, item);
  }

  lemma StepReadsTable(st: State, t: Token) returns (item: Item)
    requires Checked(st) && !Step(st, t).Failed?
    requires st.SelFrom? || st.SelTable?
    ensures Checked(Step(st, t)) && Meets(t, item) && Read(Step(st, t)) == Read(st) + [item]
  {
    hide ParseInt32, ColumnItems, ColumnsFit;
    var n := Step(st, t);
    item := Read(n)[|Read(n)| - 1];
    assert Meets(t, item);
  }

  lemma StepReads(st: State, t: Token) returns (item: Item)
    requires Checked(st) && !Step(st, t).Failed?
    ensures Checked(Step(st, t)) && Meets(t, item) && Read(Step(st, t)) == Read(st) + [item]
  {
    if st.Start? || st.SelList? {
      item := StepReadsStart(st, t);
    } else if st.SelColumns? || st.SelComma? || st.SelStar? {
      item := StepReadsList(st, t);
    } else if st.SelFrom? || st.SelTable? {
      item := StepReadsTable(st, t);
    } else if st.SelWhere? || st.SelColumn? || st.SelEqual? || st.SelValue? {
      item := StepReadsWhere(st, t);
    } else if st.InsId? || st.InsComma? || st.InsName? || st.InsClose? {
      item := StepReadsRow(st, t);
    } else {
      hide Read, Checked, Meets;
      assert !st.Done? && !st.Failed?;
      item := StepReadsInsert(st, t);
    }
  }

  lemma StartReadsNothing()
    ensures Checked(Start) && Read(Start) == []
  {
  }

  /** Whatever the machine has read and not refused is the beginning of a statement within the limits. */
  lemma {:induction false} FeedReads(b: seq<Token>)
    requires !Feed(b).Failed?
    ensures Checked(Feed(b)) && MeetsAll(b, Read(Feed(b)))
  {
    StartReadsNothing();
    hide Step, Read, Checked, Meets;
    if b == [] {
    } else {
      var front, t := b[..|b| - 1], b[|b| - 1];
      assert Feed(b) == Step(Feed(front), t);
      FailureStaysNext(b);
      FeedReads(front);
      hide Feed;
      var item := StepReads(Feed(front), t);
      assert b == front + [t];
    }
  }

  lemma FailureStaysNext(b: seq<Token>)
    requires b != [] && !Feed(b).Failed?
    ensures !Feed(b[..|b| - 1]).Failed?
  {
    if Feed(b[..|b| - 1]).Failed? { FailureStays(b, |b| - 1); }
  }

  // ----- everything in the grammar is accepted -----

  ghost predicate InsertTokens(b: seq<Token>, i: InsertQuery) {
    && |b| == 10 && b[0].kind == TokInsert && b[1].kind == TokInto && b[2] == Token(TokIdentifier, i.tableName)
    && b[3].kind == TokValues && b[4].kind == TokLparen
    && b[5].kind == TokNumber && ParseInt32(b[5].value) == Some(i.id)
    && b[6].kind == TokComma && b[7] == Token(TokString, i.name) && b[8].kind == TokRparen && b[9].kind == TokSemicolon
  }

  lemma InsertHead(b: seq<Token>, i: InsertQuery)
    requires InsertTokens(b, i) && |i.tableName| <= MAX_NAME
    ensures Feed(b[..5]) == InsOpen(EMPTY_INSERT.(tableName := i.tableName))
  {
    hide ParseInt32, Feed;
    var j := EMPTY_INSERT.(tableName := i.tableName);
    FeedStart(b);
    assert Feed(b[..1]) == InsInsert by { FeedNext(b, 0); }
    assert Feed(b[..2]) == InsInto by { FeedNext(b, 1); }
    assert Feed(b[..3]) == InsTable(j) by { FeedNext(b, 2); }
    assert Feed(b[..4]) == InsValues(j) by { FeedNext(b, 3); }
    FeedNext(b, 4);
  }

  lemma InsertId(b: seq<Token>, i: InsertQuery)
    requires InsertTokens(b, i) && Feed(b[..5]) == InsOpen(EMPTY_INSERT.(tableName := i.tableName))
    ensures Feed(b[..7]) == InsComma(EMPTY_INSERT.(tableName := i.tableName, id := i.id))
  {
    hide ParseInt32, Feed;
    assert Feed(b[..6]) == InsId(EMPTY_INSERT.(tableName := i.tableName, id := i.id)) by { FeedNext(b, 5); }
    FeedNext(b, 6);
  }

  lemma InsertTail(b: seq<Token>, i: InsertQuery)
    requires InsertTokens(b, i) && |i.name| <= MAX_NAME
    requires Feed(b[..5]) == InsOpen(EMPTY_INSERT.(tableName := i.tableName))
    ensures Feed(b) == Done(AstInsert(i))
  {
    hide ParseInt32, Feed;
    var j := EMPTY_INSERT.(tableName := i.tableName, id := i.id);
    InsertId(b, i);
    assert Feed(b[..8]) == InsName(i) by { FeedNext(b, 7); }
    assert Feed(b[..9]) == InsClose(i) by { FeedNext(b, 8); }
    FeedNext(b, 9);
    assert b[..10] == b;
  }

  lemma AcceptsInsert(b: seq<Token>, i: InsertQuery)
    requires WithinLimits(AstInsert(i)) && MeetsAll(b, Items(AstInsert(i)))
    ensures Feed(b) == Done(AstInsert(i))
  {
    hide Feed, ParseInt32, Step;
    assert InsertTokens(b, i);
    InsertHead(b, i);
    InsertTail(b, i);
  }

  lemma {:induction false} ColumnItemsAt(columns: seq<string>, j: nat)
    requires j < |columns|
    ensures |ColumnItems(columns)| == 2 * |columns| - 1
    ensures ColumnItems(columns)[2 * j] == Text(TokIdentifier, columns[j])
    ensures j + 1 < |columns| ==> ColumnItems(columns)[2 * j + 1] == Kind(TokComma)
  {
    if |columns| > 1 {
      var front := columns[..|columns| - 1];
      ColumnItemsAt(front, if j < |front| then j else 0);
    }
  }

  lemma AcceptsFirstColumn(b: seq<Token>, name: string)
    requires |b| >= 2 && b[0].kind == TokSelect && b[1] == Token(TokIdentifier, name) && |name| <= MAX_NAME
    ensures Feed(b[..2]) == SelColumns(EMPTY_SELECT.(columns := [name]))
  {
    hide ParseInt32, Feed;
    FeedStart(b);
    assert Feed(b[..1]) == SelList by { FeedNext(b, 0); }
    FeedNext(b, 1);
  }

  lemma AcceptsNextColumn(b: seq<Token>, k: nat, q: SelectQuery, name: string)
    requires k + 2 <= |b| && Feed(b[..k]) == SelColumns(q) && |q.columns| < MAX_COLUMNS && |name| <= MAX_NAME
    requires b[k].kind == TokComma && b[k + 1] == Token(TokIdentifier, name)
    ensures Feed(b[..k + 2]) == SelColumns(q.(columns := q.columns + [name]))
  {
    hide ParseInt32, Feed;
    assert Feed(b[..k + 1]) == SelComma(q) by { FeedNext(b, k); }
    FeedNext(b, k + 1);
  }

  /** The list of columns, read up to its first `n` names. */
  lemma {:induction false} AcceptsColumns(b: seq<Token>, columns: seq<string>, n: nat)
    requires ColumnsFit(columns) && 0 < n <= |columns| && |b| >= 2 * |columns|
    requires b[0].kind == TokSelect && MeetsAll(b[1..2 * |columns|], ColumnItems(columns))
    ensures Feed(b[..2 * n]) == SelColumns(EMPTY_SELECT.(columns := columns[..n]))
  {
    hide ParseInt32, ColumnItems, Feed, Step, MeetsAll;
    ColumnAt(b, columns, n - 1);
    if n == 1 {
      AcceptsFirstColumn(b, columns[0]);
      assert columns[..1] == [columns[0]];
    } else {
      AcceptsColumns(b, columns, n - 1);
      ColumnAt(b, columns, n - 2);
      AcceptsNextColumn(b, 2 * n - 2, EMPTY_SELECT.(columns := columns[..n - 1]), columns[n - 1]);
      assert columns[..n - 1] + [columns[n - 1]] == columns[..n];
    }
  }

  lemma ColumnAt(b: seq<Token>, columns: seq<string>, j: nat)
    requires j < |columns| && |b| >= 2 * |columns|
    requires MeetsAll(b[1..2 * |columns|], ColumnItems(columns))
    ensures b[2 * j + 1] == Token(TokIdentifier, columns[j])
    ensures j + 1 < |columns| ==> b[2 * j + 2].kind == TokComma
  {
    hide ColumnItems;
    ColumnItemsAt(columns, j);
    var list := b[1..2 * |columns|];
    assert list[2 * j] == b[2 * j + 1];
    if j + 1 < |columns| { assert list[2 * j + 1] == b[2 * j + 2]; }
  }

  lemma FeedStart(b: seq<Token>)
    ensures Feed(b[..0]) == Start
  {
  }

  /** Everything after the columns. */
  lemma AcceptsTable(b: seq<Token>, k: nat, q: SelectQuery)
    requires k <= |b|
    requires Feed(b[..k]) in {SelColumns(ListOnly(q)), SelStar(ListOnly(q))}
    requires k + 2 <= |b| && b[k].kind == TokFrom && b[k + 1] == Token(TokIdentifier, q.tableName)
    requires |q.tableName| <= MAX_NAME
    ensures Feed(b[..k + 2]) == SelTable(ListOnly(q).(tableName := q.tableName))
  {
    hide Feed, ParseInt32;
    FeedNext(b, k);
    FeedNext(b, k + 1);
  }

  /** The query once its list has been read. */
  function ListOnly(q: SelectQuery): SelectQuery {
    EMPTY_SELECT.(selectAll := q.selectAll, columns := q.columns)
  }

  lemma AcceptsCondition(b: seq<Token>, k: nat, q: SelectQuery, p: SelectQuery)
    requires k <= |b| && Feed(b[..k]) == SelTable(p) && |q.whereColumn| <= MAX_NAME
    requires |b| == k + 5 && b[k].kind == TokWhere && b[k + 1] == Token(TokIdentifier, q.whereColumn)
    requires b[k + 2].kind == TokEqual
    ensures Feed(b[..k + 3]) == SelEqual(p.(hasWhere := true, whereColumn := q.whereColumn))
  {
    hide Feed, ParseInt32;
    var r := p.(hasWhere := true);
    assert Feed(b[..k + 1]) == SelWhere(r) by { FeedNext(b, k); }
    assert Feed(b[..k + 2]) == SelColumn(r.(whereColumn := q.whereColumn)) by { FeedNext(b, k + 1); }
    FeedNext(b, k + 2);
  }

  lemma AcceptsValue(b: seq<Token>, k: nat, q: SelectQuery, p: SelectQuery)
    requires |b| == k + 2 && Feed(b[..k]) == SelEqual(p) && |q.whereValue| <= MAX_NAME
    requires q == p.(whereValue := q.whereValue, whereValueType := q.whereValueType)
    requires Meets(b[k], ValueItem(q)) && b[k + 1].kind == TokSemicolon
    ensures Feed(b) == Done(AstSelect(q))
  {
    hide Feed, ParseInt32;
    assert Feed(b[..k + 1]) == SelValue(q) by { FeedNext(b, k); }
    FeedNext(b, k + 1);
    assert b[..k + 2] == b;
  }

  lemma AcceptsWhere(b: seq<Token>, k: nat, q: SelectQuery)
    requires q.hasWhere && WithinLimits(AstSelect(q))
    requires k <= |b| && Feed(b[..k]) == SelTable(ListOnly(q).(tableName := q.tableName))
    requires |b| == k + 5 && b[k].kind == TokWhere && b[k + 1] == Token(TokIdentifier, q.whereColumn)
    requires b[k + 2].kind == TokEqual && Meets(b[k + 3], ValueItem(q)) && b[k + 4].kind == TokSemicolon
    ensures Feed(b) == Done(AstSelect(q))
  {
    hide Feed, Step, ParseInt32, ColumnsFit, Meets, ValueItem;
    var p := ListOnly(q).(tableName := q.tableName);
    AcceptsCondition(b, k, q, p);
    AcceptsValue(b, k + 3, q, p.(hasWhere := true, whereColumn := q.whereColumn));
  }

  lemma AcceptsNoWhere(b: seq<Token>, k: nat, q: SelectQuery)
    requires !q.hasWhere && WithinLimits(AstSelect(q))
    requires k <= |b|
    requires Feed(b[..k]) == SelTable(ListOnly(q).(tableName := q.tableName))
    requires |b| == k + 1 && b[k].kind == TokSemicolon
    ensures Feed(b) == Done(AstSelect(q))
  {
    hide Feed, ParseInt32, ColumnsFit;
    assert b[..k + 1] == b;
    FeedNext(b, k);
  }

  lemma AcceptsList(b: seq<Token>, q: SelectQuery)
    requires ListFits(q) && |b| > |ListItems(q)| && b[0].kind == TokSelect
    requires MeetsAll(b[1..1 + |ListItems(q)|], ListItems(q))
    ensures Feed(b[..1 + |ListItems(q)|]) in {SelColumns(ListOnly(q)), SelStar(ListOnly(q))}
  {
    hide ParseInt32, Feed;
    if q.selectAll {
      FeedStart(b);
      assert b[1..2][0] == b[1];
      FeedNext(b, 0);
      FeedNext(b, 1);
    } else {
      hide Step;
      ColumnItemsAt(q.columns, 0);
      AcceptsColumns(b, q.columns, |q.columns|);
      assert q.columns[..|q.columns|] == q.columns;
    }
  }

  /** Where the parts of a SELECT stand. */
  lemma SelectTokens(b: seq<Token>, q: SelectQuery)
    requires MeetsAll(b, Items(AstSelect(q)))
    ensures var n := |ListItems(q)|;
            && |b| == 4 + n + |WhereItems(q)| && b[0].kind == TokSelect && b[|b| - 1].kind == TokSemicolon
            && MeetsAll(b[1..1 + n], ListItems(q))
            && b[1 + n].kind == TokFrom && b[2 + n] == Token(TokIdentifier, q.tableName)
            && MeetsAll(b[3 + n..|b| - 1], WhereItems(q))
  {
    hide ListItems, WhereItems, MeetsAll;
    var list, rest := ListItems(q), WhereItems(q);
    var n := |list|;
    var items := Items(AstSelect(q));
    var table := [Kind(TokFrom), Text(TokIdentifier, q.tableName)];
    assert items == [Kind(TokSelect)] + (list + (table + (rest + [Kind(TokSemicolon)])));
    MeetsSplit(b, [Kind(TokSelect)], list + (table + (rest + [Kind(TokSemicolon)])));
    MeetsSplit(b[1..], list, table + (rest + [Kind(TokSemicolon)]));
    assert b[1..][..n] == b[1..1 + n] && b[1..][n..] == b[1 + n..];
    MeetsSplit(b[1 + n..], table, rest + [Kind(TokSemicolon)]);
    assert b[1 + n..][2..] == b[3 + n..];
    MeetsSplit(b[3 + n..], rest, [Kind(TokSemicolon)]);
    assert b[3 + n..][..|rest|] == b[3 + n..|b| - 1];
    MeetsEach(b[..1], [Kind(TokSelect)]);
    MeetsEach(b[1 + n..][..2], table);
    MeetsEach(b[3 + n..][|rest|..], [Kind(TokSemicolon)]);
  }

  lemma MeetsSplit(ts: seq<Token>, x: seq<Item>, y: seq<Item>)
    requires MeetsAll(ts, x + y)
    ensures |ts| == |x| + |y| && MeetsAll(ts[..|x|], x) && MeetsAll(ts[|x|..], y)
  {
    hide Meets;
    assert forall i :: 0 <= i < |x| ==> (x + y)[i] == x[i];
    assert forall i :: 0 <= i < |y| ==> (x + y)[|x| + i] == y[i] && ts[|x| + i] == ts[|x|..][i];
  }

  lemma MeetsEach(ts: seq<Token>, x: seq<Item>)
    requires MeetsAll(ts, x) && 0 < |x| <= 2
    ensures |ts| == |x| && Meets(ts[0], x[0]) && (|x| == 2 ==> Meets(ts[1], x[1]))
  {
  }

  lemma AcceptsSelect(b: seq<Token>, q: SelectQuery)
    requires WithinLimits(AstSelect(q)) && MeetsAll(b, Items(AstSelect(q)))
    ensures Feed(b) == Done(AstSelect(q))
  {
    hide Feed, Step, Items, ListItems, ColumnItems, ParseInt32, ColumnsFit;
    var n := |ListItems(q)|;
    SelectTokens(b, q);
    AcceptsList(b, q);
    AcceptsTable(b, 1 + n, q);
    if q.hasWhere {
      var w := b[3 + n..|b| - 1];
      assert w[0] == b[3 + n] && w[1] == b[4 + n] && w[2] == b[5 + n] && w[3] == b[6 + n];
      AcceptsWhere(b, 3 + n, q);
    } else {
      AcceptsNoWhere(b, 3 + n, q);
    }
  }

  // ----- the grammar, exactly -----

  /** A token list is accepted with a statement exactly when it is that statement's form within the limits. */
  lemma GrammarExact(ts: seq<Token>, ast: Ast)
    ensures Feed(Body(ts)) == Done(ast) <==> WithinLimits(ast) && MeetsAll(Body(ts), Items(ast))
  {
    hide Step, Feed, Body, Items, Meets, MeetsAll;
    var b := Body(ts);
    if Feed(b) == Done(ast) {
      FeedReads(b);
    }
    if WithinLimits(ast) && MeetsAll(b, Items(ast)) {
      match ast
      case AstSelect(q) => AcceptsSelect(b, q);
      case AstInsert(i) => AcceptsInsert(b, i);
    }
  }

  // ----- the methods of the source -----

  lemma {:induction false} FeedOfPrefix(ts: seq<Token>, k: nat)
    requires k <= |Body(ts)|
    ensures k < |ts| && ts[k].kind != TokEof <==> k < |Body(ts)|
    ensures k == |Body(ts)| ==> Parse(ts) == Verdict(Feed(ts[..k]))
    ensures k < |Body(ts)| && Step(Feed(ts[..k]), ts[k]).Failed? ==> Parse(ts) == Step(Feed(ts[..k]), ts[k]).status
  {
    hide Step, Feed, Body;
    var b := Body(ts);
    if k < |b| && Step(Feed(ts[..k]), ts[k]).Failed? {
      FeedNext(ts, k);
      assert b[..k + 1] == ts[..k + 1];
      FailureStays(b, k + 1);
    }
  }

  /** The cursor of the source: a token buffer and a position in it. */
  class Parser {
    const tokens: seq<Token>
    var position: nat

    /** The cursor has not passed the first EOF, so it is always inside the buffer or at its end. */
    ghost predicate Valid()
      reads this
    {
      position <= |Body(tokens)|
    }

    /** What the tokens before the cursor amount to. */
    ghost function Seen(): State
      reads this
      requires Valid()
    {
      Feed(tokens[..position])
    }

    constructor (tokens: seq<Token>)
      ensures Valid() && this.tokens == tokens && position == 0 && Seen() == Start
    {
      this.tokens := tokens;
      position := 0;
    }

    predicate AtEnd()
      reads this
    {
      position >= |tokens| || tokens[position].kind == TokEof
    }

    function Peek(): (t: Token)
      reads this
      ensures t.kind == TokEof <==> AtEnd()
      ensures !AtEnd() ==> position < |tokens| && t == tokens[position]
    {
      if position >= |tokens| then EOF else tokens[position]
    }

    method Advance()
      requires Valid()
      modifies this`position
      ensures Valid()
      ensures old(AtEnd()) ==> position == old(position)
      ensures !old(AtEnd()) ==> position == old(position) + 1 && Seen() == Step(old(Seen()), old(Peek()))
    {
      hide Feed, Body, Step;
      FeedOfPrefix(tokens, position);
      if !AtEnd() {
        FeedNext(tokens, position);
        position := position + 1;
      }
    }

    /** `parser_match` and `parser_expect`, which are the same. */
    method Expect(kind: TokenType) returns (met: bool)
      requires Valid() && kind != TokEof
      modifies this`position
      ensures Valid() && met == (old(Peek()).kind == kind)
      ensures met ==> position == old(position) + 1 && Seen() == Step(old(Seen()), old(Peek()))
      ensures !met ==> position == old(position)
    {
      hide Feed, Body, Step;
      met := Peek().kind == kind;
      if met { Advance(); }
    }

    /** `missing_token_status`, called where the statement goes on but the next token does not fit. */
    method MissingTokenStatus() returns (status: ParseStatus)
      requires Valid() && Verdict(Seen()) == ParseUnexpectedEof
      requires !AtEnd() ==> Step(Seen(), Peek()) == Failed(ParseError)
      ensures status == Parse(tokens) && status != ParseOk
    {
      hide Feed, Body, Step, Verdict;
      FeedOfPrefix(tokens, position);
      status := if AtEnd() then ParseUnexpectedEof else ParseError;
    }

    /** `parser_expect`, and what the caller returns when it fails. */
    method Require(kind: TokenType) returns (status: ParseStatus)
      requires Valid() && kind != TokEof && Verdict(Seen()) == ParseUnexpectedEof
      requires !AtEnd() && Peek().kind != kind ==> Step(Seen(), Peek()) == Failed(ParseError)
      modifies this`position
      ensures Valid()
      ensures status == ParseOk ==> old(Peek()).kind == kind && position == old(position) + 1
                                    && Seen() == Step(old(Seen()), old(Peek()))
      ensures status != ParseOk ==> status == Parse(tokens)
    {
      hide Feed, Body, Step, Verdict;
      var met := Expect(kind);
      if met { return ParseOk; }
      status := MissingTokenStatus();
    }

    /** The end of `parse_select` and `parse_insert`. */
    method Finish() returns (status: ParseStatus)
      requires Valid() && Seen().Done?
      ensures status == Parse(tokens) && (status == ParseOk ==> Feed(Body(tokens)) == Seen())
    {
      hide Feed, Body;
      FeedOfPrefix(tokens, position);
      status := if AtEnd() then ParseOk else ParseTrailingTokens;
    }

    lemma Refused(status: ParseStatus)
      requires Valid() && !AtEnd() && Step(Seen(), Peek()) == Failed(status)
      ensures status == Parse(tokens)
    {
      hide Feed, Body, Step, Verdict;
      FeedOfPrefix(tokens, position);
    }

    /** A name copied into a field of the AST, if it fits. */
    method TakeName(tooLong: ParseStatus) returns (status: ParseStatus, name: string)
      requires Valid() && !AtEnd()
      requires |Peek().value| > MAX_NAME ==> Step(Seen(), Peek()) == Failed(tooLong)
      requires tooLong != ParseOk
      modifies this`position
      ensures Valid()
      ensures status == ParseOk ==> name == old(Peek()).value && |name| <= MAX_NAME
                                    && position == old(position) + 1 && Seen() == Step(old(Seen()), old(Peek()))
      ensures status != ParseOk ==> status == Parse(tokens)
    {
      hide Feed, Body, Step;
      name := Peek().value;
      if |name| > MAX_NAME {
        Refused(tooLong);
        return tooLong, "";
      }
      Advance();
      return ParseOk, name;
    }

    /** The comma loop of `parse_select`. */
    method ParseColumns(first: string) returns (status: ParseStatus, columns: seq<string>)
      requires Valid() && Seen() == SelColumns(EMPTY_SELECT.(columns := [first]))
      modifies this`position
      ensures Valid()
      ensures status == ParseOk ==> Seen() == SelColumns(EMPTY_SELECT.(columns := columns)) && Peek().kind != TokComma
      ensures status != ParseOk ==> status == Parse(tokens)
    {
      hide Feed, Body, ParseInt32;
      columns := [first];
      while true
        invariant Valid() && Seen() == SelColumns(EMPTY_SELECT.(columns := columns))
        decreases |tokens| - position
      {
        var comma := Expect(TokComma);
        if !comma { return ParseOk, columns; }
        if Peek().kind != TokIdentifier {
          status := MissingTokenStatus();
          return;
        }
        if |columns| >= MAX_COLUMNS {
          Refused(ParseError);
          return ParseError, columns;
        }
        var name;
        status, name := TakeName(ParseIdentifierTooLong);
        if status != ParseOk { return; }
        columns := columns + [name];
      }
    }

    /** What may stand between SELECT and FROM. */
    method ParseList() returns (status: ParseStatus, all: bool, columns: seq<string>)
      requires Valid() && Seen() == SelList
      modifies this`position
      ensures Valid()
      ensures status == ParseOk ==>
                && Seen() in {SelStar(EMPTY_SELECT.(selectAll := all)), SelColumns(EMPTY_SELECT.(columns := columns))}
                && (all ==> Seen().SelStar? && columns == [])
                && (!all ==> Seen().SelColumns? && Peek().kind != TokComma)
      ensures status != ParseOk ==> status == Parse(tokens)
    {
      hide Feed, Body, ParseInt32;
      all, columns := false, [];
      var star := Expect(TokStar);
      if star { return ParseOk, true, []; }
      if Peek().kind == TokIdentifier {
        var first;
        status, first := TakeName(ParseIdentifierTooLong);
        if status != ParseOk { return; }
        status, columns := ParseColumns(first);
        return status, false, columns;
      }
      status := MissingTokenStatus();
    }

    /** `WHERE column = value`, if it is there. */
    method ParseWhere(list: SelectQuery) returns (status: ParseStatus, q: SelectQuery)
      requires Valid() && Seen() == SelTable(list) && !list.hasWhere
      modifies this`position
      ensures Valid()
      ensures status == ParseOk ==> Seen() == (if q.hasWhere then SelValue(q) else SelTable(q))
      ensures status == ParseOk && !q.hasWhere ==> Peek().kind != TokWhere
      ensures status != ParseOk ==> status == Parse(tokens)
    {
      hide Feed, Body, ParseInt32;
      q := list;
      var where := Expect(TokWhere);
      if !where { return ParseOk, q; }
      q := q.(hasWhere := true);
      if Peek().kind != TokIdentifier {
        status := MissingTokenStatus();
        return;
      }
      var column;
      status, column := TakeName(ParseIdentifierTooLong);
      if status != ParseOk { return; }
      q := q.(whereColumn := column);
      status := Require(TokEqual);
      if status != ParseOk { return; }
      status, q := ParseValue(q);
    }

    method ParseValue(condition: SelectQuery) returns (status: ParseStatus, q: SelectQuery)
      requires Valid() && Seen() == SelEqual(condition)
      modifies this`position
      ensures Valid()
      ensures status == ParseOk ==> Seen() == SelValue(q) && q.hasWhere == condition.hasWhere
      ensures status != ParseOk ==> status == Parse(tokens)
    {
      hide Feed, Body, ParseInt32;
      q := condition;
      var value;
      if Peek().kind == TokNumber {
        status, value := TakeName(ParseIntegerOutOfRange);
        q := q.(whereValue := value, whereValueType := LiteralNumber);
      } else if Peek().kind == TokString {
        status, value := TakeName(ParseStringTooLong);
        q := q.(whereValue := value, whereValueType := LiteralString);
      } else {
        status := MissingTokenStatus();
      }
    }

    /** `parse_select`. */
    method ParseSelect() returns (status: ParseStatus, q: SelectQuery)
      requires Valid() && position == 0
      modifies this`position
      ensures old(Peek()).kind != TokSelect ==> status == ParseError
      ensures old(Peek()).kind == TokSelect ==>
                status == Parse(tokens) && (status == ParseOk ==> Feed(Body(tokens)) == Done(AstSelect(q)))
    {
      hide Feed, Body, ParseInt32;
      FeedStart(tokens);
      q := EMPTY_SELECT;
      var met := Expect(TokSelect);
      if !met { return ParseError, q; }
      var all, columns;
      status, all, columns := ParseList();
      if status != ParseOk { return; }
      q := q.(selectAll := all, columns := columns);
      status := Require(TokFrom);
      if status != ParseOk { return; }
      status, q := ParseRest(q);
    }

    /** The table, the condition and the end of a SELECT. */
    method ParseRest(list: SelectQuery) returns (status: ParseStatus, q: SelectQuery)
      requires Valid() && Seen() == SelFrom(list) && !list.hasWhere
      modifies this`position
      ensures status == Parse(tokens) && (status == ParseOk ==> Feed(Body(tokens)) == Done(AstSelect(q)))
    {
      hide Feed, Body, ParseInt32;
      q := list;
      if Peek().kind != TokIdentifier {
        status := MissingTokenStatus();
        return;
      }
      var name;
      status, name := TakeName(ParseTableNameTooLong);
      if status != ParseOk { return; }
      status, q := ParseWhere(q.(tableName := name));
      if status != ParseOk { return; }
      status := Require(TokSemicolon);
      if status != ParseOk { return; }
      status := Finish();
    }

    /** `parse_insert`. */
    method ParseInsert() returns (status: ParseStatus, i: InsertQuery)
      requires Valid() && position == 0
      modifies this`position
      ensures old(Peek()).kind != TokInsert ==> status == ParseError
      ensures old(Peek()).kind == TokInsert ==>
                status == Parse(tokens) && (status == ParseOk ==> Feed(Body(tokens)) == Done(AstInsert(i)))
    {
      hide Feed, Body, ParseInt32;
      FeedStart(tokens);
      i := EMPTY_INSERT;
      var met := Expect(TokInsert);
      if !met { return ParseError, i; }
      status := Require(TokInto);
      if status != ParseOk { return; }
      if Peek().kind != TokIdentifier {
        status := MissingTokenStatus();
        return;
      }
      var name;
      status, name := TakeName(ParseTableNameTooLong);
      if status != ParseOk { return; }
      status, i := ParseRow(i.(tableName := name));
    }

    /** The rest of an INSERT from VALUES on. */
    method ParseRow(target: InsertQuery) returns (status: ParseStatus, i: InsertQuery)
      requires Valid() && Seen() == InsTable(target)
      modifies this`position
      ensures status == Parse(tokens) && (status == ParseOk ==> Feed(Body(tokens)) == Done(AstInsert(i)))
    {
      hide Feed, Body, ParseInt32;
      i := target;
      status := Require(TokValues);
      if status != ParseOk { return; }
      status := Require(TokLparen);
      if status != ParseOk { return; }
      status, i := ParseTuple(i);
    }

    /** The id, and what follows. */
    method ParseTuple(target: InsertQuery) returns (status: ParseStatus, i: InsertQuery)
      requires Valid() && Seen() == InsOpen(target)
      modifies this`position
      ensures status == Parse(tokens) && (status == ParseOk ==> Feed(Body(tokens)) == Done(AstInsert(i)))
    {
      hide Feed, Body, ParseInt32;
      i := target;
      if Peek().kind != TokNumber {
        status := MissingTokenStatus();
        return;
      }
      var id := ParseInt32(Peek().value);
      if id.None? {
        Refused(ParseIntegerOutOfRange);
        return ParseIntegerOutOfRange, i;
      }
      Advance();
      status, i := ParseName(i.(id := id.value));
    }

    /** The name, and what follows. */
    method ParseName(target: InsertQuery) returns (status: ParseStatus, i: InsertQuery)
      requires Valid() && Seen() == InsId(target)
      modifies this`position
      ensures status == Parse(tokens) && (status == ParseOk ==> Feed(Body(tokens)) == Done(AstInsert(i)))
    {
      hide Feed, Body, ParseInt32;
      i := target;
      status := Require(TokComma);
      if status != ParseOk { return; }
      if Peek().kind != TokString {
        status := MissingTokenStatus();
        return;
      }
      var name;
      status, name := TakeName(ParseStringTooLong);
      if status != ParseOk { return; }
      i := i.(name := name);
      status := ParseClose(i);
    }

    method ParseClose(i: InsertQuery) returns (status: ParseStatus)
      requires Valid() && Seen() == InsName(i)
      modifies this`position
      ensures status == Parse(tokens) && (status == ParseOk ==> Feed(Body(tokens)) == Done(AstInsert(i)))
    {
      hide Feed, Body, ParseInt32;
      status := Require(TokRparen);
      if status != ParseOk { return; }
      status := Require(TokSemicolon);
      if status != ParseOk { return; }
      status := Finish();
    }
  }

  /** `parse_tokens`: it accepts exactly the statements of the grammar, and returns the statement it read. */
  method ParseTokens(tokens: seq<Token>) returns (status: ParseStatus, ast: Ast)
    ensures status == Parse(tokens)
    ensures status == ParseOk ==> WithinLimits(ast) && MeetsAll(Body(tokens), Items(ast))
    ensures forall a :: WithinLimits(a) && MeetsAll(Body(tokens), Items(a)) ==> status == ParseOk && ast == a
  {
    hide Feed, Body, ParseInt32, WithinLimits, MeetsAll, Items;
    OkOnlyWhenDone(Body(tokens));
    forall a: Ast ensures Feed(Body(tokens)) == Done(a) <==> WithinLimits(a) && MeetsAll(Body(tokens), Items(a)) {
      GrammarExact(tokens, a);
    }
    var p := new Parser(tokens);
    if p.Peek().kind == TokSelect {
      var q;
      status, q := p.ParseSelect();
      return status, AstSelect(q);
    }
    if p.Peek().kind == TokInsert {
      var i;
      status, i := p.ParseInsert();
      return status, AstInsert(i);
    }
    status := p.MissingTokenStatus();
    return status, AstUnknown;
  }
}
