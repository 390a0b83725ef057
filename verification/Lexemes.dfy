/**
 What a text's tokens are, without reading it from left to right: which characters spell which
 token, where one token may end, and what makes a place unreadable. The tokenizer is proved to
 find exactly this.
 */
module Lexemes {
  import opened Bytes
  import opened Sql
  import opened Tokenizer

  /** White space and the characters of one token. */
  datatype Piece = Piece(gap: string, lexeme: string)

  function Joined(pieces: seq<Piece>, end: string): string {
    if pieces == [] then end else pieces[0].gap + (pieces[0].lexeme + Joined(pieces[1..], end))
  }

  predicate AllIn(s: string, cls: CharClass) {
    forall i :: 0 <= i < |s| ==> In(s[i], cls)
  }

  /** The character classes, by the codes of their characters. */
  lemma ClassCodes(c: char)
    ensures In(c, Space) <==> c as int in {9, 10, 11, 12, 13, 32}
    ensures In(c, Digit) <==> 48 <= c as int <= 57
    ensures In(c, Word) <==> 48 <= c as int <= 57 || 65 <= c as int <= 90 || 97 <= c as int <= 122 || c as int == 95
    ensures In(c, Quoted) <==> c as int != 34 && c as int != 0
  {
  }

  // ----- spelling -----

  /** How the tokens are written that are always written alike. */
  function Spelling(kind: TokenType): string {
    match kind
    case TokSelect => "select"
    case TokInsert => "insert"
    case TokFrom => "from"
    case TokWhere => "where"
    case TokInto => "into"
    case TokValues => "values"
    case TokStar => "*"
    case TokComma => ","
    case TokEqual => "="
    case TokLparen => "("
    case TokRparen => ")"
    case TokSemicolon => ";"
    case _ => ""
  }

  predicate IsKeyword(kind: TokenType) {
    kind in {TokSelect, TokInsert, TokFrom, TokWhere, TokInto, TokValues}
  }

  predicate IsMark(kind: TokenType) {
    kind in {TokStar, TokComma, TokEqual, TokLparen, TokRparen, TokSemicolon}
  }

  /** The word is the key, in any casing of its letters. */
  predicate SameLetters(word: string, key: string) {
    |word| == |key| && forall i :: 0 <= i < |word| ==>
                         word[i] as int == key[i] as int || word[i] as int + 32 == key[i] as int
  }

  /** A word does not start with a digit. */
  predicate IsWord(s: string) {
    s != "" && AllIn(s, Word) && !IsDigit(s[0])
  }

  predicate IsNumberText(s: string) {
    var digits := if s != "" && s[0] == '-' then s[1..] else s;
    digits != "" && AllIn(digits, Digit)
  }

  /** These characters are a way to write this token, which holds at most 63 of them. */
  ghost predicate Spells(lexeme: string, t: Token) {
    && |t.value| <= 63
    && (t.kind != TokString ==> t.value == lexeme)
    && (match t.kind
        case TokEof => false
        case TokString => lexeme == ['"'] + (t.value + ['"']) && AllIn(t.value, Quoted)
        case TokNumber => IsNumberText(lexeme)
        case TokIdentifier =>
          IsWord(lexeme) && forall kind | IsKeyword(kind) :: !SameLetters(lexeme, Spelling(kind))
        case kind => if IsKeyword(kind) then SameLetters(lexeme, Spelling(kind)) else lexeme == Spelling(kind))
  }

  /** A number ends before anything but a digit, a word before anything but its own characters. */
  predicate Ends(kind: TokenType, rest: string) {
    rest == "" ||
    (if kind == TokNumber then !In(rest[0], Digit)
     else IsKeyword(kind) || kind == TokIdentifier ==> !In(rest[0], Word))
  }

  /** After n characters the text is over, and none of them is a quote. */
  ghost predicate NeverCloses(s: string, n: nat) {
    n <= |s| && AllIn(s[..n], Quoted) && (n == |s| || s[n] == '\0')
  }

  /** No token can be read from here, for this reason. */
  ghost predicate Blocked(s: string, status: TokenizeStatus)
    requires s != ""
  {
    match status
    case TokenizeInvalidCharacter =>
      && (forall kind | IsMark(kind) :: s[0] != Spelling(kind)[0])
      && s[0] != '"' && !In(s[0], Word) && !(s[0] == '-' && |s| > 1 && In(s[1], Digit))
    case TokenizeUnterminatedString =>
      s[0] == '"' && exists n: nat :: n <= 63 && NeverCloses(s[1..], n)
    case TokenizeTokenTooLong =>
      || (s[0] == '"' && |s| >= 65 && AllIn(s[1..65], Quoted))
      || (|s| >= 64 && (IsNumberText(s[..64]) || IsWord(s[..64])))
    case _ => false
  }

  // ----- characters of one class -----

  lemma SpanOf(a: string, b: string, cls: CharClass)
    requires AllIn(a, cls) && (b != "" ==> !In(b[0], cls))
    ensures Span(a + b, cls) == |a|
  {
    hide In;
    var s := a + b;
    assert forall i :: 0 <= i < |a| ==> s[i] == a[i];
    if b != "" { assert s[|a|] == b[0]; }
  }

  lemma SpanAtLeast(s: string, n: nat, cls: CharClass)
    requires n <= |s|
    ensures Span(s, cls) >= n <==> AllIn(s[..n], cls)
  {
    hide In;
  }

  // ----- keywords -----

  lemma LowerSame(word: string, key: string)
    requires forall i :: 0 <= i < |key| ==> 'a' <= key[i] <= 'z'
    ensures Lower(word) == key <==> SameLetters(word, key)
  {
    hide Lower;
    if |word| == |key| {
      forall i | 0 <= i < |word|
        ensures Lower(word)[i] == key[i] <==> word[i] as int == key[i] as int || word[i] as int + 32 == key[i] as int
      {
        LowerAt(word, i);
      }
    }
  }

  lemma KeywordExact(word: string, kind: TokenType)
    requires IsKeyword(kind)
    ensures KeywordLookup(word) == kind <==> SameLetters(word, Spelling(kind))
  {
    hide Lower, SameLetters;
    LowerSame(word, Spelling(kind));
  }

  lemma KeywordKinds(word: string)
    ensures IsKeyword(KeywordLookup(word)) || KeywordLookup(word) == TokIdentifier
  {
    hide Lower;
  }

  /** A word is an identifier exactly if it is no keyword. */
  lemma IdentifierExact(word: string)
    ensures KeywordLookup(word) == TokIdentifier <==>
            forall kind | IsKeyword(kind) :: !SameLetters(word, Spelling(kind))
  {
    hide KeywordLookup, SameLetters, Spelling;
    KeywordKinds(word);
    forall kind | IsKeyword(kind) ensures KeywordLookup(word) == kind <==> SameLetters(word, Spelling(kind)) {
      KeywordExact(word, kind);
    }
  }

  /** What a keyword comparison accepts is a word. */
  lemma KeywordIsWord(word: string)
    requires KeywordLookup(word) != TokIdentifier
    ensures 0 < |word| <= 6 && IsWord(word)
  {
    forall i | 0 <= i < |word| ensures IsAlpha(word[i]) { LowerAt(word, i); }
  }

  lemma WordSpells(word: string)
    requires IsWord(word) && |word| <= 63
    ensures Spells(word, Token(KeywordLookup(word), word))
  {
    hide KeywordLookup, SameLetters, Spelling, AllIn;
    KeywordKinds(word);
    IdentifierExact(word);
    if IsKeyword(KeywordLookup(word)) { KeywordExact(word, KeywordLookup(word)); }
  }

  lemma SpelledWord(word: string, t: Token)
    requires Spells(word, t) && (IsKeyword(t.kind) || t.kind == TokIdentifier)
    ensures IsWord(word) && t == Token(KeywordLookup(word), word)
  {
    hide KeywordLookup, SameLetters, Spelling, IsWord;
    IdentifierExact(word);
    if IsKeyword(t.kind) {
      KeywordExact(word, t.kind);
      KeywordIsWord(word);
    }
  }

  // ----- one token -----

  lemma MarkExact(c: char, kind: TokenType)
    ensures Punctuation(c) == Some(kind) <==> IsMark(kind) && Spelling(kind) == [c]
  {
  }

  /** What the scan finds is spelled by the characters it takes, and goes on no further. */
  lemma FoundSpells(s: string, t: Token, n: nat)
    requires s != "" && FirstToken(s) == Found(t, n)
    ensures Spells(s[..n], t) && Ends(t.kind, s[n..])
  {
    hide KeywordLookup, SameLetters, AllIn;
    if Punctuation(s[0]).Some? {
      MarkExact(s[0], t.kind);
      assert s[..1] == [s[0]];
    } else if s[0] == '"' {
      FoundString(s, t, n);
    } else if IsDigit(s[0]) || (s[0] == '-' && |s| > 1 && IsDigit(s[1])) {
      FoundNumber(s, n);
    } else {
      assert AllIn(s[..n], Word) by { SpanAtLeast(s, n, Word); }
      WordSpells(s[..n]);
      KeywordKinds(s[..n]);
    }
  }

  lemma FoundString(s: string, t: Token, n: nat)
    requires s != "" && s[0] == '"' && FirstToken(s) == Found(t, n)
    ensures Spells(s[..n], t)
  {
    hide KeywordLookup, SameLetters, In;
    var inner := s[1..];
    assert s[..n] == ['"'] + (s[1..n - 1] + ['"']);
    assert inner[..n - 2] == s[1..n - 1];
    SpanAtLeast(inner, n - 2, Quoted);
  }

  lemma FoundNumber(s: string, n: nat)
    requires s != "" && (IsDigit(s[0]) || (s[0] == '-' && |s| > 1 && IsDigit(s[1])))
    requires FirstToken(s).Found? && FirstToken(s).length == n
    ensures n <= |s| && Spells(s[..n], Token(TokNumber, s[..n])) && Ends(TokNumber, s[n..])
  {
    hide KeywordLookup, SameLetters;
    var sign := if s[0] == '-' then 1 else 0;
    var digits := s[sign..];
    SpanAtLeast(digits, n - sign, Digit);
    assert digits[..n - sign] == s[..n][sign..];
    assert n < |s| ==> digits[n - sign] == s[n];
  }

  lemma WordToken(w: string, rest: string)
    requires |w| <= TOKEN_VALUE_MAX && IsWord(w) && (rest == "" || !In(rest[0], Word))
    ensures FirstToken(w + rest) == Found(Token(KeywordLookup(w), w), |w|)
  {
    hide KeywordLookup;
    var s := w + rest;
    assert s[0] == w[0] && In(w[0], Word);
    SpanOf(w, rest, Word);
    assert s[..|w|] == w;
  }

  lemma NumberToken(w: string, rest: string)
    requires |w| <= TOKEN_VALUE_MAX && IsNumberText(w) && (rest == "" || !In(rest[0], Digit))
    ensures FirstToken(w + rest) == Found(Token(TokNumber, w), |w|)
  {
    hide KeywordLookup;
    var s := w + rest;
    var sign := if w[0] == '-' then 1 else 0;
    assert s[0] == w[0] && s[sign..] == w[sign..] + rest && s[sign] == w[sign];
    assert In(w[sign..][0], Digit);
    SpanOf(w[sign..], rest, Digit);
    assert s[..|w|] == w;
  }

  lemma StringToken(value: string, rest: string)
    requires |value| <= TOKEN_VALUE_MAX && AllIn(value, Quoted)
    ensures FirstToken(['"'] + (value + ['"']) + rest) == Found(Token(TokString, value), |value| + 2)
  {
    hide KeywordLookup;
    var s := ['"'] + (value + ['"']) + rest;
    var tail := ['"'] + rest;
    assert s[1..] == value + tail;
    SpanOf(value, tail, Quoted);
    assert s[1..1 + |value|] == value && s[1 + |value|] == '"';
  }

  lemma MarkToken(lexeme: string, kind: TokenType, rest: string)
    requires |lexeme| == 1 && Punctuation(lexeme[0]) == Some(kind)
    ensures FirstToken(lexeme + rest) == Found(Token(kind, lexeme), 1)
  {
    assert (lexeme + rest)[0] == lexeme[0] && lexeme == [lexeme[0]];
  }

  /** What is spelled, and ends there, is found. */
  lemma SpelledIsFound(lexeme: string, t: Token, rest: string)
    requires Spells(lexeme, t) && Ends(t.kind, rest)
    ensures lexeme != "" && FirstToken(lexeme + rest) == Found(t, |lexeme|)
  {
    hide FirstToken, KeywordLookup, AllIn, Punctuation, SameLetters;
    if t.kind == TokString {
      StringToken(t.value, rest);
    } else if t.kind == TokNumber {
      NumberToken(lexeme, rest);
    } else if IsKeyword(t.kind) || t.kind == TokIdentifier {
      SpelledWord(lexeme, t);
      WordToken(lexeme, rest);
    } else {
      MarkExact(lexeme[0], t.kind);
      MarkToken(lexeme, t.kind, rest);
    }
  }

  /** The scan reads a token exactly where one is spelled and ends. */
  lemma FirstTokenExact(s: string, t: Token, n: nat)
    requires s != "" && n <= |s|
    ensures FirstToken(s) == Found(t, n) <==> Spells(s[..n], t) && Ends(t.kind, s[n..])
  {
    hide FirstToken, Spells;
    if FirstToken(s) == Found(t, n) { FoundSpells(s, t, n); }
    if Spells(s[..n], t) && Ends(t.kind, s[n..]) {
      SpelledIsFound(s[..n], t, s[n..]);
      assert s[..n] + s[n..] == s;
    }
  }

  /** And it fails exactly where it is blocked, for that reason. */
  lemma FirstTokenWrong(s: string, status: TokenizeStatus)
    requires s != ""
    ensures FirstToken(s) == Wrong(status) <==> Blocked(s, status)
  {
    hide KeywordLookup;
    if s[0] == '"' {
      WrongString(s, status);
    } else if IsDigit(s[0]) || (s[0] == '-' && |s| > 1 && IsDigit(s[1])) {
      WrongNumber(s);
    } else {
      WrongOther(s, status);
    }
  }

  lemma WrongOther(s: string, status: TokenizeStatus)
    requires s != "" && s[0] != '"' && !IsDigit(s[0]) && !(s[0] == '-' && |s| > 1 && IsDigit(s[1]))
    ensures FirstToken(s) == Wrong(status) <==> Blocked(s, status)
  {
    hide KeywordLookup, Spelling, Punctuation;
    MarkOrNone(s[0]);
    if IsAlpha(s[0]) || s[0] == '_' {
      if |s| >= 64 { SpanAtLeast(s, 64, Word); }
      WordIsNoMark(s[0]);
    }
  }

  lemma MarkOrNone(c: char)
    ensures Punctuation(c).None? <==> forall kind | IsMark(kind) :: c != Spelling(kind)[0]
  {
    if Punctuation(c).Some? { MarkExact(c, Punctuation(c).value); }
    forall kind | IsMark(kind) && c == Spelling(kind)[0] ensures Punctuation(c) == Some(kind) { MarkExact(c, kind); }
  }

  lemma WordIsNoMark(c: char)
    requires In(c, Word)
    ensures Punctuation(c).None?
  {
  }

  lemma WrongString(s: string, status: TokenizeStatus)
    requires s != "" && s[0] == '"'
    ensures FirstToken(s) == Wrong(status) <==> Blocked(s, status)
  {
    var t := s[1..];
    if |s| >= 65 {
      SpanAtLeast(t, 64, Quoted);
      assert t[..64] == s[1..65];
    }
    forall n: nat | NeverCloses(t, n) ensures Span(t, Quoted) == n {
      assert t == t[..n] + t[n..];
      SpanOf(t[..n], t[n..], Quoted);
    }
    var n := Span(t, Quoted);
    assert n == |t| || t[n] == '\0' ==> NeverCloses(t, n);
    assert n < |t| ==> s[1 + n] == t[n];
  }

  lemma WrongNumber(s: string)
    requires s != "" && (IsDigit(s[0]) || (s[0] == '-' && |s| > 1 && IsDigit(s[1])))
    ensures var sign := if s[0] == '-' then 1 else 0;
            sign + Span(s[sign..], Digit) > 63 <==> |s| >= 64 && IsNumberText(s[..64])
  {
    var sign := if s[0] == '-' then 1 else 0;
    if |s| >= 64 {
      SpanAtLeast(s[sign..], 64 - sign, Digit);
      assert s[sign..][..64 - sign] == s[..64][sign..];
    }
  }

  // ----- a whole text -----

  /** Pieces in turn, each spelling its token and ending there, before the rest of the text. */
  ghost predicate Parts(pieces: seq<Piece>, rest: string, ts: seq<Token>) {
    |pieces| == |ts| && forall i :: 0 <= i < |ts| ==> Part(pieces, rest, ts[i], i)
  }

  ghost predicate Part(pieces: seq<Piece>, rest: string, t: Token, i: nat)
    requires i < |pieces|
  {
    && AllIn(pieces[i].gap, Space) && Spells(pieces[i].lexeme, t)
    && Ends(t.kind, Joined(pieces[i + 1..], rest))
  }

  /** Nothing but white space comes before the end or a NUL. */
  ghost predicate Ended(s: string) {
    exists n: nat :: Skips(s, n) && (n == |s| || s[n] == '\0')
  }

  ghost predicate Skips(s: string, n: nat) {
    n <= |s| && AllIn(s[..n], Space)
  }

  /** Behind white space there is more, but no room for it, or nothing that can be read. */
  ghost predicate Refused(s: string, room: nat, status: TokenizeStatus) {
    exists n: nat ::
      && Skips(s, n) && n < |s| && !In(s[n], Space) && s[n] != '\0'
      && if room == 0 then status == TokenizeTooManyTokens else Blocked(s[n..], status)
  }

  /** The text consists of lexemes for these tokens, with white space between them, up to its NUL if it has one. */
  ghost predicate Scans(s: string, ts: seq<Token>) {
    exists pieces, rest :: s == Joined(pieces, rest) && Parts(pieces, rest, ts) && Ended(rest)
  }

  /** After so many tokens as can be read, up to `room`, the text is refused. */
  ghost predicate Stuck(s: string, room: nat, status: TokenizeStatus) {
    exists pieces, rest, ts ::
      s == Joined(pieces, rest) && Parts(pieces, rest, ts) && |ts| <= room && Refused(rest, room - |ts|, status)
  }

  lemma SpelledStarts(lexeme: string, t: Token)
    requires Spells(lexeme, t)
    ensures lexeme != "" && !In(lexeme[0], Space) && lexeme[0] != '\0'
  {
    hide SameLetters, AllIn;
    if t.kind == TokNumber {
      NumberStarts(lexeme);
    } else if IsKeyword(t.kind) || t.kind == TokIdentifier {
      SpelledWord(lexeme, t);
      WordStarts(lexeme);
    }
  }

  lemma NumberStarts(w: string)
    requires IsNumberText(w)
    ensures w[0] == '-' || In(w[0], Digit)
  {
  }

  lemma WordStarts(w: string)
    requires IsWord(w)
    ensures In(w[0], Word)
  {
  }

  lemma GapSkipped(gap: string, s: string)
    requires AllIn(gap, Space) && (s != "" ==> !In(s[0], Space))
    ensures (gap + s)[Span(gap + s, Space)..] == s
  {
    SpanOf(gap, s, Space);
  }

  lemma LexPiece(piece: Piece, t: Token, after: string, room: nat)
    requires AllIn(piece.gap, Space) && Spells(piece.lexeme, t) && Ends(t.kind, after) && room > 0
    ensures Lex(piece.gap + (piece.lexeme + after), room) == Prepend([t], Lex(after, room - 1))
  {
    hide FirstToken, Spells, Ends, AllIn, In;
    var s := piece.lexeme + after;
    SpelledIsFound(piece.lexeme, t, after);
    SpelledStarts(piece.lexeme, t);
    assert s[0] == piece.lexeme[0] && s[|piece.lexeme|..] == after;
    GapSkipped(piece.gap, s);
  }

  /** Pieces are read one by one, whatever the rest is. */
  lemma {:induction false} LexParts(pieces: seq<Piece>, rest: string, ts: seq<Token>, room: nat)
    requires Parts(pieces, rest, ts) && |ts| <= room
    ensures Lex(Joined(pieces, rest), room) == Prepend(ts, Lex(rest, room - |ts|))
    decreases |ts|
  {
    hide FirstToken, Spells, Ends, AllIn, Lex;
    if ts == [] {
      assert Joined(pieces, rest) == rest;
      PrependNone(Lex(rest, room));
    } else {
      var piece, after := pieces[0], Joined(pieces[1..], rest);
      assert Part(pieces, rest, ts[0], 0);
      LexPiece(piece, ts[0], after, room);
      PartsAfter(pieces, rest, ts);
      LexParts(pieces[1..], rest, ts[1..], room - 1);
      PrependTogether(ts, Lex(rest, room - |ts|));
    }
  }

  lemma PrependNone(l: Lexed)
    ensures Prepend([], l) == l
  {
    if l.Tokens? { assert [] + l.tokens == l.tokens; }
  }

  lemma PrependTogether(ts: seq<Token>, l: Lexed)
    requires ts != []
    ensures Prepend([ts[0]], Prepend(ts[1..], l)) == Prepend(ts, l)
  {
    if l.Tokens? { assert [ts[0]] + (ts[1..] + l.tokens) == ts + l.tokens; }
  }

  lemma PartsAfter(pieces: seq<Piece>, rest: string, ts: seq<Token>)
    requires Parts(pieces, rest, ts) && ts != []
    ensures Parts(pieces[1..], rest, ts[1..])
  {
    hide Spells, Ends, AllIn;
    forall i | 0 <= i < |ts| - 1 ensures Part(pieces[1..], rest, ts[1..][i], i) {
      assert Part(pieces, rest, ts[i + 1], i + 1);
      assert pieces[1..][i + 1..] == pieces[i + 2..];
    }
  }

  lemma LexEnded(s: string, room: nat)
    requires Ended(s)
    ensures Lex(s, room) == Tokens([EOF])
  {
    hide FirstToken, AllIn;
    var n: nat :| Skips(s, n) && (n == |s| || s[n] == '\0');
    GapSkipped(s[..n], s[n..]);
    assert s[..n] + s[n..] == s;
  }

  lemma LexRefused(s: string, room: nat, status: TokenizeStatus)
    requires Refused(s, room, status)
    ensures Lex(s, room) == LexError(status)
  {
    hide FirstToken, Blocked, AllIn;
    var n: nat :|
      && Skips(s, n) && n < |s| && !In(s[n], Space) && s[n] != '\0'
      && if room == 0 then status == TokenizeTooManyTokens else Blocked(s[n..], status);
    GapSkipped(s[..n], s[n..]);
    assert s[..n] + s[n..] == s;
    FirstTokenWrong(s[n..], status);
  }

  /** Every text is pieces up to its end or up to where it is refused. */
  lemma {:induction false} LexSplits(s: string, room: nat)
    returns (pieces: seq<Piece>, rest: string, ts: seq<Token>, status: TokenizeStatus)
    ensures s == Joined(pieces, rest) && Parts(pieces, rest, ts) && |ts| <= room
    ensures Ended(rest) || Refused(rest, room - |ts|, status)
    decreases |s|
  {
    hide FirstToken, Spells, Ends, AllIn, Blocked, In;
    var n := Span(s, Space);
    var t := s[n..];
    assert Skips(s, n) by { SpanAtLeast(s, n, Space); }
    if t == "" || t[0] == '\0' {
      pieces, rest, ts, status := [], s, [], TokenizeOk;
      assert Ended(s);
    } else if room == 0 {
      pieces, rest, ts, status := [], s, [], TokenizeTooManyTokens;
      assert Refused(s, 0, TokenizeTooManyTokens);
    } else {
      match FirstToken(t)
      case Wrong(wrong) =>
        pieces, rest, ts, status := [], s, [], wrong;
        FirstTokenWrong(t, status);
        assert Refused(s, room, status);
      case Found(token, length) =>
        FirstTokenExact(t, token, length);
        var later, laterTokens;
        later, rest, laterTokens, status := LexSplits(t[length..], room - 1);
        var piece := Piece(s[..n], t[..length]);
        pieces, ts := [piece] + later, [token] + laterTokens;
        PartsWith(piece, token, later, rest, laterTokens);
        assert pieces[1..] == later;
        assert s == piece.gap + (piece.lexeme + t[length..]);
    }
  }

  lemma PartsWith(piece: Piece, t: Token, pieces: seq<Piece>, rest: string, ts: seq<Token>)
    requires Parts(pieces, rest, ts)
    requires AllIn(piece.gap, Space) && Spells(piece.lexeme, t) && Ends(t.kind, Joined(pieces, rest))
    ensures Parts([piece] + pieces, rest, [t] + ts)
  {
    hide Spells, Ends, AllIn;
    var all := [piece] + pieces;
    forall i | 0 <= i < |ts| + 1 ensures Part(all, rest, ([t] + ts)[i], i) {
      if i == 0 {
        assert all[1..] == pieces;
      } else {
        assert Part(pieces, rest, ts[i - 1], i - 1);
        assert all[i + 1..] == pieces[i..];
      }
    }
  }

  /**
   A text is accepted with these tokens exactly if it consists of lexemes that spell them, with
   white space between, and they are no more than there is room for.
   */
  lemma LexExact(s: string, room: nat, ts: seq<Token>)
    ensures Lex(s, room) == Tokens(ts + [EOF]) <==> |ts| <= room && Scans(s, ts)
  {
    hide Lex, Parts, Ended, Refused, Joined;
    var pieces, rest, found, status := LexSplits(s, room);
    LexParts(pieces, rest, found, room);
    if Ended(rest) {
      LexEnded(rest, room - |found|);
      if found + [EOF] == ts + [EOF] { assert found == (found + [EOF])[..|found|] == ts; }
    } else {
      LexRefused(rest, room - |found|, status);
    }
    forall pieces, rest | s == Joined(pieces, rest) && Parts(pieces, rest, ts) && Ended(rest) && |ts| <= room
      ensures Lex(s, room) == Tokens(ts + [EOF])
    {
      LexParts(pieces, rest, ts, room);
      LexEnded(rest, room - |ts|);
    }
  }

  /** And it is refused for a reason exactly if reading it comes to a place that is refused for it. */
  lemma LexErrorExact(s: string, room: nat, status: TokenizeStatus)
    ensures Lex(s, room) == LexError(status) <==> Stuck(s, room, status)
  {
    hide Lex, Parts, Ended, Refused, Joined;
    var pieces, rest, ts, found := LexSplits(s, room);
    LexParts(pieces, rest, ts, room);
    if Ended(rest) {
      LexEnded(rest, room - |ts|);
    } else {
      LexRefused(rest, room - |ts|, found);
    }
    forall pieces, rest, ts |
      s == Joined(pieces, rest) && Parts(pieces, rest, ts) && |ts| <= room && Refused(rest, room - |ts|, status)
      ensures Lex(s, room) == LexError(status)
    {
      LexParts(pieces, rest, ts, room);
      LexRefused(rest, room - |ts|, status);
    }
  }

  /** Every accepted text ends with the one EOF. */
  lemma LexEnds(s: string, room: nat) returns (ts: seq<Token>)
    requires Lex(s, room).Tokens?
    ensures Lex(s, room) == Tokens(ts + [EOF]) && |ts| <= room && Scans(s, ts)
    ensures forall i :: 0 <= i < |ts| ==> ts[i].kind != TokEof
  {
    hide Lex, Ended, Refused, Joined, AllIn, Ends;
    var pieces, rest, status;
    pieces, rest, ts, status := LexSplits(s, room);
    LexParts(pieces, rest, ts, room);
    if Ended(rest) {
      LexEnded(rest, room - |ts|);
    } else {
      LexRefused(rest, room - |ts|, status);
    }
    forall i | 0 <= i < |ts| ensures ts[i].kind != TokEof { assert Part(pieces, rest, ts[i], i); }
  }
}
