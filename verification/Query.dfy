/**
 What a statement asks for (src/semantic.c and the row tests and printing of src/executor.c):
 which queries are valid, which rows one selects, and what is shown of them.
 */
module Query {
  import opened Bytes
  import opened Keys
  import opened IndexFile
  import opened IndexStore
  import opened Sql

  // ----- the functions of the source -----

  /** `row_matches_where`. */
  predicate RowMatches(row: Row, q: SelectQuery) {
    if !q.hasWhere then true else
    match ColumnFromName(q.whereColumn)
    case ColumnId => ParseInt32(q.whereValue) == Some(row.id)
    case ColumnName => UpToNul(row.name) == UpToNul(BytesOf(q.whereValue))
    case _ => false
  }

  function Matching(rows: seq<Row>, q: SelectQuery): seq<Row>
    decreases |rows|
  {
    if rows == [] then [] else
    Matching(rows[..|rows| - 1], q)
    + (if RowMatches(rows[|rows| - 1], q) then [rows[|rows| - 1]] else [])
  }

  datatype Field = IdField(id: int32) | NameField(name: seq<byte>)

  /** What `print_row` prints of a row. */
  function Project(row: Row, q: SelectQuery): seq<Field> {
    if q.selectAll then [IdField(row.id), NameField(row.name)] else ProjectColumns(row, q.columns)
  }

  function ProjectColumns(row: Row, columns: seq<string>): seq<Field> {
    if columns == [] then [] else
    (match ColumnFromName(columns[0])
     case ColumnId => [IdField(row.id)]
     case ColumnName => [NameField(row.name)]
     case _ => []) + ProjectColumns(row, columns[1..])
  }

  predicate ColumnsKnown(columns: seq<string>) {
    forall i :: 0 <= i < |columns| ==> ColumnFromName(columns[i]) in {ColumnId, ColumnName}
  }

  /** A validated column list prints one field for each column, in its order. */
  lemma {:induction false} ProjectsEachColumn(row: Row, columns: seq<string>, i: nat)
    requires ColumnsKnown(columns) && i < |columns|
    ensures |ProjectColumns(row, columns)| == |columns|
    ensures ProjectColumns(row, columns)[i] == if columns[i] == "id" then IdField(row.id) else NameField(row.name)
  {
    assert ColumnFromName(columns[0]) in {ColumnId, ColumnName};
    if |columns| > 1 { ProjectsEachColumn(row, columns[1..], if i > 0 then i - 1 else 0); }
  }

  function ProjectAll(rows: seq<Row>, q: SelectQuery): (r: seq<seq<Field>>)
    ensures |r| == |rows|
    decreases |rows|
  {
    if rows == [] then [] else ProjectAll(rows[..|rows| - 1], q) + [Project(rows[|rows| - 1], q)]
  }

  /** The answer a plain scan of the table gives. */
  function Answer(rows: seq<Row>, q: SelectQuery): seq<seq<Field>> {
    ProjectAll(Matching(rows, q), q)
  }

  /** With unique ids, a row found by its id is the whole answer to the query for that id. */
  lemma {:induction false} OnlyMatch(rows: seq<Row>, q: SelectQuery, k: nat)
    requires Distinct(IdsOf(rows)) && k < |rows|
    requires q.hasWhere && ColumnFromName(q.whereColumn) == ColumnId && ParseInt32(q.whereValue) == Some(rows[k].id)
    ensures Matching(rows, q) == [rows[k]]
    decreases |rows|
  {
    hide ParseInt32, ColumnFromName;
    var n := |rows| - 1;
    var front := rows[..n];
    var ids := IdsOf(rows);
    assert forall i :: 0 <= i < n ==> IdsOf(front)[i] == ids[i];
    if k < n {
      OnlyMatch(front, q, k);
      assert ids[k] != ids[n];
    } else {
      NoMatch(front, q, rows[k].id) by {
        forall i | 0 <= i < n ensures front[i].id != rows[k].id { assert ids[i] != ids[n]; }
      }
    }
  }

  lemma {:induction false} NoMatch(rows: seq<Row>, q: SelectQuery, id: int32)
    requires forall i :: 0 <= i < |rows| ==> rows[i].id != id
    requires q.hasWhere && ColumnFromName(q.whereColumn) == ColumnId && ParseInt32(q.whereValue) == Some(id)
    ensures Matching(rows, q) == []
    decreases |rows|
  {
    hide ParseInt32, ColumnFromName;
    if rows != [] { NoMatch(rows[..|rows| - 1], q, id); }
  }

  lemma SingleProjection(row: Row, q: SelectQuery)
    ensures ProjectAll([row], q) == [Project(row, q)]
  {
    assert [row][..0] == [];
  }

  lemma AnswerGrows(rows: seq<Row>, row: Row, q: SelectQuery)
    requires RowMatches(row, q)
    ensures Answer(rows + [row], q) == Answer(rows, q) + [Project(row, q)]
  {
    hide RowMatches, Project;
    assert (rows + [row])[..|rows|] == rows;
    var m := Matching(rows, q);
    assert (m + [row])[..|m|] == m;
  }

  lemma AnswerStep(rows: seq<Row>, k: nat, q: SelectQuery)
    requires k < |rows|
    ensures Answer(rows[..k + 1], q) ==
            Answer(rows[..k], q) + (if RowMatches(rows[k], q) then [Project(rows[k], q)] else [])
  {
    hide RowMatches, Project;
    assert rows[..k + 1] == rows[..k] + [rows[k]];
    if RowMatches(rows[k], q) {
      AnswerGrows(rows[..k], rows[k], q);
    } else {
      assert rows[..k + 1][..k] == rows[..k];
      assert Matching(rows[..k], q) + [] == Matching(rows[..k], q);
      assert Answer(rows[..k], q) + [] == Answer(rows[..k], q);
    }
  }

  // ----- what a query means, row by row -----

  /** A buffer and a text are the same C string: the same characters up to the first NUL. */
  ghost predicate SameCString(name: seq<byte>, text: string) {
    exists n: nat :: SameUpTo(name, text, n) && (n == |name| || name[n] == 0) && (n == |text| || text[n] == '\0')
  }

  ghost predicate SameUpTo(name: seq<byte>, text: string, n: nat) {
    && n <= |name| && n <= |text|
    && forall i :: 0 <= i < n ==>
         name[i] != 0 && name[i] == if (text[i] as int) < 256 then text[i] as int else 255
  }

  /** The row is asked for: there is no condition, or its id is the number, or its name the string. */
  ghost predicate Qualifies(row: Row, q: SelectQuery) {
    || !q.hasWhere
    || (q.whereColumn == "id" && ParseInt32(q.whereValue) == Some(row.id))
    || (q.whereColumn == "name" && SameCString(row.name, q.whereValue))
  }

  /** Both columns for the star, and otherwise one field for each column in the order of the query. */
  ghost predicate Shown(fields: seq<Field>, row: Row, q: SelectQuery) {
    if q.selectAll then fields == [IdField(row.id), NameField(row.name)]
    else
      && |fields| == |q.columns|
      && forall i :: 0 <= i < |fields| ==>
           fields[i] == if q.columns[i] == "id" then IdField(row.id) else NameField(row.name)
  }

  ghost predicate Increasing(ks: seq<nat>) {
    forall i, j :: 0 <= i < j < |ks| ==> ks[i] < ks[j]
  }

  /** The row numbers in ks are, in order, exactly those of the rows that qualify. */
  ghost predicate Chosen(rows: seq<Row>, q: SelectQuery, ks: seq<nat>) {
    && Increasing(ks) && (forall j :: 0 <= j < |ks| ==> ks[j] < |rows|)
    && forall k :: 0 <= k < |rows| ==> (k in ks <==> Qualifies(rows[k], q))
  }

  /** The output shows the rows that qualify, each once, in the order of the table. */
  ghost predicate Answers(rows: seq<Row>, q: SelectQuery, output: seq<seq<Field>>) {
    exists ks: seq<nat> :: Chosen(rows, q, ks) && ShowsEach(output, rows, q, ks)
  }

  ghost predicate ShowsEach(output: seq<seq<Field>>, rows: seq<Row>, q: SelectQuery, ks: seq<nat>) {
    |output| == |ks| && forall j :: 0 <= j < |ks| ==> ks[j] < |rows| && Shown(output[j], rows[ks[j]], q)
  }

  lemma SameCStringExact(name: seq<byte>, text: string)
    ensures UpToNul(name) == UpToNul(BytesOf(text)) <==> SameCString(name, text)
  {
    var a, b := UpToNul(name), UpToNul(BytesOf(text));
    if a == b { assert SameUpTo(name, text, |a|); }
    forall n: nat | SameUpTo(name, text, n) && (n == |name| || name[n] == 0) && (n == |text| || text[n] == '\0')
      ensures a == b
    {
      CutAt(name, n);
      CutAt(BytesOf(text), n);
      assert name[..n] == BytesOf(text)[..n];
    }
  }

  lemma CutAt(s: seq<byte>, n: nat)
    requires n <= |s| && (n == |s| || s[n] == 0) && forall i :: 0 <= i < n ==> s[i] != 0
    ensures UpToNul(s) == s[..n]
  {
  }

  lemma QualifiesExact(row: Row, q: SelectQuery)
    ensures RowMatches(row, q) <==> Qualifies(row, q)
  {
    hide ParseInt32, SameCString, UpToNul, BytesOf;
    SameCStringExact(row.name, q.whereValue);
  }

  lemma ProjectShows(row: Row, q: SelectQuery)
    requires q.selectAll || ColumnsKnown(q.columns)
    ensures Shown(Project(row, q), row, q)
  {
    hide ProjectColumns, ColumnsKnown;
    if !q.selectAll {
      if q.columns == [] {
        NoColumns(row);
      } else {
        forall i | 0 <= i < |q.columns|
          ensures |Project(row, q)| == |q.columns|
          ensures Project(row, q)[i] == if q.columns[i] == "id" then IdField(row.id) else NameField(row.name)
        {
          ProjectsEachColumn(row, q.columns, i);
        }
        ProjectsEachColumn(row, q.columns, 0);
      }
    }
  }

  lemma NoColumns(row: Row)
    ensures ProjectColumns(row, []) == []
  {
  }

  /** The answer of the scan shows exactly the rows that qualify, as the query asks for them. */
  lemma {:induction false} AnswerMeans(rows: seq<Row>, q: SelectQuery)
    requires q.selectAll || ColumnsKnown(q.columns)
    ensures Answers(rows, q, Answer(rows, q))
    decreases |rows|
  {
    hide RowMatches, Project, Qualifies, ColumnsKnown, Answer, Chosen, ShowsEach;
    if rows == [] {
      EmptyAnswer(q);
      assert Chosen([], q, []) && ShowsEach([], [], q, []) by { NoneChosen(q); }
    } else {
      var n := |rows| - 1;
      AnswerMeans(rows[..n], q);
      var ks :| Chosen(rows[..n], q, ks) && ShowsEach(Answer(rows[..n], q), rows[..n], q, ks);
      AnswerStep(rows, n, q);
      assert rows[..n + 1] == rows;
      QualifiesExact(rows[n], q);
      ProjectShows(rows[n], q);
      ChosenNext(rows, q, ks);
      ShowsNext(Answer(rows[..n], q), rows, q, ks);
    }
  }

  lemma NoneChosen(q: SelectQuery)
    ensures Chosen([], q, []) && ShowsEach([], [], q, [])
  {
  }

  lemma ShowsNext(output: seq<seq<Field>>, rows: seq<Row>, q: SelectQuery, ks: seq<nat>)
    requires rows != [] && ShowsEach(output, rows[..|rows| - 1], q, ks)
    ensures ShowsEach(output, rows, q, ks) && ShowsEach(output + [], rows, q, ks)
    ensures forall fields :: Shown(fields, rows[|rows| - 1], q) ==>
                               ShowsEach(output + [fields], rows, q, ks + [|rows| - 1])
  {
    hide Shown;
    assert output + [] == output;
    forall j | 0 <= j < |ks| ensures Shown(output[j], rows[ks[j]], q) {
      assert rows[..|rows| - 1][ks[j]] == rows[ks[j]];
    }
  }

  lemma EmptyAnswer(q: SelectQuery)
    ensures Answer([], q) == []
  {
  }

  lemma ChosenNext(rows: seq<Row>, q: SelectQuery, ks: seq<nat>)
    requires rows != [] && Chosen(rows[..|rows| - 1], q, ks)
    ensures Chosen(rows, q, if Qualifies(rows[|rows| - 1], q) then ks + [|rows| - 1] else ks)
  {
    hide Qualifies;
    var n := |rows| - 1;
    var next := if Qualifies(rows[n], q) then ks + [n] else ks;
    forall k | 0 <= k < |rows| ensures k in next <==> Qualifies(rows[k], q) {
      if k < n { assert rows[..n][k] == rows[k]; }
    }
  }

  // ----- validation -----

  /** `semantic_validate`. */
  predicate SemanticOk(ast: Ast) {
    match ast
    case AstUnknown => false
    case AstInsert(_) => true
    case AstSelect(q) =>
      && (q.selectAll || (0 < |q.columns| <= MAX_COLUMNS && ColumnsKnown(q.columns)))
      && (q.hasWhere ==>
            match ColumnFromName(q.whereColumn)
            case ColumnId => q.whereValueType == LiteralNumber && ParseInt32(q.whereValue).Some?
            case ColumnName => q.whereValueType == LiteralString
            case _ => false)
  }

  /** Every INSERT is valid, and every SELECT of known columns whose condition has a fitting literal. */
  lemma SemanticExact(ast: Ast)
    ensures SemanticOk(ast) <==>
            match ast
            case AstUnknown => false
            case AstInsert(_) => true
            case AstSelect(q) =>
              && (q.selectAll
                  || (0 < |q.columns| <= 10 && forall i :: 0 <= i < |q.columns| ==> q.columns[i] in {"id", "name"}))
              && (!q.hasWhere
                  || (q.whereColumn == "id" && q.whereValueType == LiteralNumber && ParseInt32(q.whereValue).Some?)
                  || (q.whereColumn == "name" && q.whereValueType == LiteralString))
  {
    hide ParseInt32;
  }

  /** The answer to a valid query means what it should. */
  lemma ValidAnswerMeans(rows: seq<Row>, q: SelectQuery)
    requires SemanticOk(AstSelect(q))
    ensures Answers(rows, q, Answer(rows, q))
  {
    hide Answers, Answer, ColumnsKnown;
    AnswerMeans(rows, q);
  }
}
