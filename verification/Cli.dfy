/**
 One line of SQL from text to answer (src/cli.c): tokenize, parse, execute.
 */
module Cli {
  import opened Bytes
  import opened Journal
  import opened Disk
  import P = Protocol
  import opened Storage
  import opened StatementRuns
  import opened CrashSafety
  import opened Sql
  import Tok = Tokenizer
  import Par = Parser
  import opened Lexemes
  import opened SqlText
  import opened Query
  import opened IndexStore
  import opened Executor

  const MAX_TOKENS: nat := 64

  /** The text is one of the ways to write the statement, short enough for the token buffer. */
  ghost predicate Writes(text: string, ast: Ast, pieces: seq<Piece>, end: string) {
    && Par.WithinLimits(ast) && AllPrint(pieces, Par.Items(ast)) && Spaced(pieces) && AllIn(end, Tok.Space)
    && |pieces| < MAX_TOKENS && text == Joined(pieces, end)
  }

  /** The text consists of lexemes for at most 63 tokens, and they are the statement's form, within the limits. */
  ghost predicate Reads(text: string, ast: Ast) {
    exists ts :: Scans(text, ts) && |ts| <= 63 && Par.WithinLimits(ast) && Par.MeetsAll(ts, Par.Items(ast))
  }

  lemma ReadsAsWritten(text: string, ast: Ast, pieces: seq<Piece>, end: string)
    requires Writes(text, ast, pieces, end)
    ensures Reads(text, ast)
  {
    hide Scans, AllPrint, Spaced, Joined, Par.MeetsAll, Par.Items, Par.WithinLimits;
    var ts := PrintedScans(pieces, Par.Items(ast), end);
    assert |ts| <= 63 by { SameCount(pieces, Par.Items(ast), ts); }
  }

  lemma SameCount(pieces: seq<Piece>, items: seq<Par.Item>, ts: seq<Tok.Token>)
    requires AllPrint(pieces, items) && Par.MeetsAll(ts, items)
    ensures |ts| == |pieces|
  {
  }

  /** What the tokenizer and the grammar make of the text is what it reads as. */
  lemma ReadsExact(text: string, ast: Ast)
    ensures Reads(text, ast) <==>
            && Tok.Lex(text, MAX_TOKENS - 1).Tokens?
            && Par.WithinLimits(ast) && Par.MeetsAll(Par.Body(Tok.Lex(text, MAX_TOKENS - 1).tokens), Par.Items(ast))
  {
    hide Tok.Lex, Scans, Par.WithinLimits, Par.MeetsAll, Par.Items, Par.Body;
    forall ts | Scans(text, ts) && |ts| <= 63
      ensures Tok.Lex(text, MAX_TOKENS - 1) == Tok.Tokens(ts + [Tok.EOF])
    {
      LexExact(text, MAX_TOKENS - 1, ts);
    }
    if Tok.Lex(text, MAX_TOKENS - 1).Tokens? {
      var found := LexEnds(text, MAX_TOKENS - 1);
      BodyBeforeEof(found);
      forall ts | found + [Tok.EOF] == ts + [Tok.EOF] ensures ts == found {
        assert ts == (ts + [Tok.EOF])[..|ts|] && found == (found + [Tok.EOF])[..|found|];
      }
    }
  }

  /** The first half of `handle_sql_input`: the one statement the line spells, if it spells one. */
  method ReadStatement(input: string) returns (ast: Option<Ast>)
    ensures forall a :: ast == Some(a) <==> Reads(input, a)
    ensures forall a, pieces, end :: Writes(input, a, pieces, end) ==> ast == Some(a)
  {
    hide Par.Feed, Par.Body, Tok.Lex, Par.WithinLimits, Par.MeetsAll, Par.Items, Writes, Par.Verdict, Reads;
    forall a { ReadsExact(input, a); }
    forall a, pieces, end | Writes(input, a, pieces, end) ensures Reads(input, a) {
      ReadsAsWritten(input, a, pieces, end);
    }
    var storage := new Tok.Token[MAX_TOKENS](_ => Tok.EOF);
    var tokenized, count := Tok.Tokenize(input, storage);
    if tokenized != Tok.TokenizeOk { return None; }
    if count == 0 || storage[0].kind == Tok.TokEof {
      NothingRead(storage[..count]);
      return None;
    }
    var status, read := Par.ParseTokens(storage[..count]);
    return if status == Par.ParseOk then Some(read) else None;
  }

  /** No statement is empty. */
  lemma NothingRead(ts: seq<Tok.Token>)
    requires ts == [] || ts[0].kind == Tok.TokEof
    ensures forall a :: Par.WithinLimits(a) ==> !Par.MeetsAll(Par.Body(ts), Par.Items(a))
  {
    forall a | Par.WithinLimits(a) ensures Par.Items(a) != [] {
      hide Par.ColumnItems, Par.ListItems, Par.WhereItems;
    }
  }

  /**
   `handle_sql_input`: whatever way a statement is written, and whatever the runs before it,
   it is that statement which is executed, with everything `Execute` guarantees.
   */
  method HandleSqlInput(volume: Volume, ghost rows: seq<Slot>, input: string)
    returns (ast: Option<Ast>, status: ExecStatus, output: seq<seq<Field>>, ghost before: Option<seq<Slot>>,
             ghost tested: bool)
    requires Sound(volume, rows)
    modifies volume
    ensures Sound(volume, rows) && old(volume.history) <= volume.history && volume.reported == |old(volume.history)|
    ensures volume.reliable == old(volume.reliable) && (volume.reliable ==> tested)
    ensures forall a :: ast == Some(a) <==> Reads(input, a)
    ensures forall a, pieces, end :: Writes(input, a, pieces, end) ==> ast == Some(a)
    ensures ast.None? ==>
              && volume.world == old(volume.world) && volume.history == old(volume.history) && output == []
              && volume.index == old(volume.index)
    ensures ast.Some? ==> (volume.reliable ==> status != ExecTableCorrupt)
                          && (!SemanticOk(ast.value) ==> status == ExecSemanticError)
    ensures ast.Some? && SemanticOk(ast.value) && ast.value.AstSelect? ==>
              && NoInsertSince(old(volume.history), volume.history)
              && volume.world.acked == old(volume.world.acked) && volume.table == old(volume.table)
              && ReadOnlyView(volume.world) == ReadOnlyView(old(volume.world))
              && (volume.index == old(volume.index)
                  || (ReadHeader(volume.table.Now()).Good? && HoldsExact(volume.index, TableIds(volume))))
              && status in {ExecOk, ExecIoError, ExecTableCorrupt}
              && (volume.reliable && volume.world.Journal().None? ==> status == ExecOk)
              && (tested && status != ExecIoError ==> volume.world.Journal().None?)
              && (status == ExecOk && volume.world.Journal().None? ==>
                    Answered(volume, rows, ast.value.select, output))
              && (status == ExecOk ==> AsTheHeaderCounts(volume, ast.value.select, output))
    ensures ast.Some? && SemanticOk(ast.value) && ast.value.AstInsert? ==>
              Outcome(status, before, ast.value.insert.id, ast.value.insert.name, volume.start, old(volume.history),
                      old(volume.world), volume.history, volume.world, volume.reliable, old(volume.index),
                      volume.index)
  {
    hide P.Runs, P.Initial, Writes, Reads, Par.WithinLimits, SemanticOk, Answered, AsTheHeaderCounts, Outcome,
      ReadHeader, HoldsExact;
    status, output, before, tested := ExecSemanticError, [], None, true;
    volume.reported := |volume.history|;
    ast := ReadStatement(input);
    if ast.Some? {
      status, output, before, tested := Execute(volume, rows, ast.value);
    }
  }
}
