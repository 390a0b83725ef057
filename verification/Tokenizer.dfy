/**
 The tokenizer (src/tokenizer.c). `Lex` says what the tokens of a text are; `Tokenize` is
 the loop of the source, which fills the caller's array.
 */
module Tokenizer {
  import opened Bytes
  import opened Sql

  const TOKEN_VALUE_MAX: nat := 63

  datatype TokenType =
    | TokSelect | TokInsert | TokFrom | TokWhere | TokInto | TokValues
    | TokIdentifier | TokNumber | TokString
    | TokStar | TokComma | TokEqual | TokLparen | TokRparen | TokSemicolon
    | TokEof

  datatype Token = Token(kind: TokenType, value: string)

  datatype TokenizeStatus =
    | TokenizeOk
    | TokenizeInvalidCharacter
    | TokenizeTooManyTokens
    | TokenizeTokenTooLong
    | TokenizeUnterminatedString
    | TokenizeNullInput

  const EOF: Token := Token(TokEof, "")

  // ----- characters -----

  datatype CharClass = Space | Digit | Word | Quoted

  predicate In(c: char, cls: CharClass) {
    match cls
    case Space => IsSpace(c)
    case Digit => IsDigit(c)
    case Word => IsAlpha(c) || IsDigit(c) || c == '_'
    case Quoted => c != '"' && c != '\0'
  }

  /** How many characters from the start belong to the class. */
  function Span(s: string, cls: CharClass): (n: nat)
    ensures n <= |s| && (forall i :: 0 <= i < n ==> In(s[i], cls)) && (n < |s| ==> !In(s[n], cls))
  {
    if s != "" && In(s[0], cls) then
      var n := Span(s[1..], cls);
      assert forall i :: 0 < i <= n ==> s[i] == s[1..][i - 1];
      1 + n
    else 0
  }

  function LowerChar(c: char): char {
    if 'A' <= c <= 'Z' then (c as int + 32) as char else c
  }

  function Lower(s: string): (r: string)
    ensures |r| == |s|
  {
    if s == "" then "" else [LowerChar(s[0])] + Lower(s[1..])
  }

  /** `keyword_lookup`. */
  function KeywordLookup(word: string): TokenType {
    var w := Lower(word);
    if w == "select" then TokSelect
    else if w == "insert" then TokInsert
    else if w == "from" then TokFrom
    else if w == "where" then TokWhere
    else if w == "into" then TokInto
    else if w == "values" then TokValues
    else TokIdentifier
  }

  // ----- one token -----

  datatype OneToken = Found(token: Token, length: nat) | Wrong(status: TokenizeStatus)

  function Punctuation(c: char): Option<TokenType> {
    match c
    case ',' => Some(TokComma)
    case '*' => Some(TokStar)
    case '=' => Some(TokEqual)
    case '(' => Some(TokLparen)
    case ')' => Some(TokRparen)
    case ';' => Some(TokSemicolon)
    case _ => None
  }

  /** The token at the start of a text that starts with neither space nor NUL. */
  function FirstToken(s: string): (r: OneToken)
    requires s != ""
    ensures r.Found? ==> 0 < r.length <= |s|
  {
    if Punctuation(s[0]).Some? then Found(Token(Punctuation(s[0]).value, [s[0]]), 1)
    else if s[0] == '"' then
      var n := Span(s[1..], Quoted);
      if n > TOKEN_VALUE_MAX then Wrong(TokenizeTokenTooLong)
      else if 1 + n < |s| && s[1 + n] == '"' then Found(Token(TokString, s[1..1 + n]), n + 2)
      else Wrong(TokenizeUnterminatedString)
    else if IsDigit(s[0]) || (s[0] == '-' && |s| > 1 && IsDigit(s[1])) then
      var sign := if s[0] == '-' then 1 else 0;
      var n := sign + Span(s[sign..], Digit);
      if n > TOKEN_VALUE_MAX then Wrong(TokenizeTokenTooLong) else Found(Token(TokNumber, s[..n]), n)
    else if IsAlpha(s[0]) || s[0] == '_' then
      var n := Span(s, Word);
      if n > TOKEN_VALUE_MAX then Wrong(TokenizeTokenTooLong) else Found(Token(KeywordLookup(s[..n]), s[..n]), n)
    else Wrong(TokenizeInvalidCharacter)
  }

  // ----- all tokens -----

  datatype Lexed = Tokens(tokens: seq<Token>) | LexError(status: TokenizeStatus)

  function Prepend(front: seq<Token>, l: Lexed): Lexed {
    match l
    case LexError(_) => l
    case Tokens(ts) => Tokens(front + ts)
  }

  /** The rest of the text, up to a NUL if it has one, with room for `room` tokens and the EOF. */
  function Lex(s: string, room: nat): Lexed
    decreases |s|
  {
    var t := s[Span(s, Space)..];
    if t == "" || t[0] == '\0' then Tokens([EOF]) else
    if room == 0 then LexError(TokenizeTooManyTokens) else
    match FirstToken(t)
    case Wrong(status) => LexError(status)
    case Found(token, length) => Prepend([token], Lex(t[length..], room - 1))
  }

  // ----- the loops of the source -----

  /** `util_strncasecmp` on a word and a lower-case key, followed by the test for the word's end. */
  method SameWord(word: string, key: string) returns (same: bool)
    requires forall i :: 0 <= i < |key| ==> 'a' <= key[i] <= 'z'
    ensures same == (Lower(word) == key)
  {
    if |word| != |key| { return false; }
    for i := 0 to |key|
      invariant Lower(word)[..i] == key[..i]
    {
      LowerAt(word, i);
      if LowerChar(word[i]) != LowerChar(key[i]) { return false; }
    }
    assert Lower(word)[..|key|] == Lower(word);
    return true;
  }

  /** `keyword_lookup`, comparison by comparison. */
  method KeywordOf(word: string) returns (kind: TokenType)
    ensures kind == KeywordLookup(word)
  {
    var same := SameWord(word, "select");
    if same { return TokSelect; }
    same := SameWord(word, "insert");
    if same { return TokInsert; }
    same := SameWord(word, "from");
    if same { return TokFrom; }
    same := SameWord(word, "where");
    if same { return TokWhere; }
    same := SameWord(word, "into");
    if same { return TokInto; }
    same := SameWord(word, "values");
    if same { return TokValues; }
    return TokIdentifier;
  }

  lemma {:induction false} LowerAt(s: string, i: nat)
    requires i < |s|
    ensures Lower(s)[i] == LowerChar(s[i])
  {
    if i > 0 { LowerAt(s[1..], i - 1); }
  }

  /** The inner loops of `tokenize`: copy characters of one class, as many as a token holds. */
  method CopyWhile(s: string, from: nat, cls: CharClass, start: string) returns (p: nat, value: string, tooLong: bool)
    requires from <= |s| && |start| <= TOKEN_VALUE_MAX
    ensures tooLong == (|start| + Span(s[from..], cls) > TOKEN_VALUE_MAX)
    ensures !tooLong ==> p == from + Span(s[from..], cls) && value == start + s[from..p]
  {
    p, value, tooLong := from, start, false;
    ghost var length := Span(s[from..], cls);
    while p < |s| && In(s[p], cls)
      invariant from <= p <= |s| && |value| <= TOKEN_VALUE_MAX
      invariant value == start + s[from..p] && length == p - from + Span(s[p..], cls)
    {
      assert s[p..][1..] == s[p + 1..];
      if |value| >= TOKEN_VALUE_MAX { return p, value, true; }
      value := value + [s[p]];
      p := p + 1;
    }
  }

  method SkipSpace(s: string, from: nat) returns (p: nat)
    requires from <= |s|
    ensures p == from + Span(s[from..], Space)
  {
    p := from;
    while p < |s| && IsSpace(s[p])
      invariant from <= p <= |s| && from + Span(s[from..], Space) == p + Span(s[p..], Space)
    {
      assert s[p..][1..] == s[p + 1..];
      p := p + 1;
    }
  }

  method ScanQuoted(s: string, p: nat) returns (r: OneToken)
    requires p < |s| && s[p] == '"'
    ensures r == FirstToken(s[p..])
  {
    ghost var t := s[p..];
    var q, value, tooLong := CopyWhile(s, p + 1, Quoted, "");
    assert s[p + 1..] == t[1..];
    if tooLong { return Wrong(TokenizeTokenTooLong); }
    if q >= |s| || s[q] != '"' { return Wrong(TokenizeUnterminatedString); }
    assert value == t[1..q - p];
    return Found(Token(TokString, value), q + 1 - p);
  }

  /** One iteration of the outer loop, past the spaces. */
  method ScanToken(s: string, p: nat) returns (r: OneToken)
    requires p < |s|
    ensures r == FirstToken(s[p..])
  {
    var c := s[p];
    ghost var t := s[p..];
    if Punctuation(c).Some? { return Found(Token(Punctuation(c).value, [c]), 1); }
    if c == '"' {
      r := ScanQuoted(s, p);
      return;
    }
    if IsDigit(c) || (c == '-' && p + 1 < |s| && IsDigit(s[p + 1])) {
      var sign := if c == '-' then 1 else 0;
      var q, value, tooLong := CopyWhile(s, p + sign, Digit, s[p..p + sign]);
      assert s[p + sign..] == t[sign..];
      if tooLong { return Wrong(TokenizeTokenTooLong); }
      assert value == t[..q - p];
      return Found(Token(TokNumber, value), q - p);
    }
    if IsAlpha(c) || c == '_' {
      var q, value, tooLong := CopyWhile(s, p, Word, "");
      if tooLong { return Wrong(TokenizeTokenTooLong); }
      assert value == t[..q - p];
      var kind := KeywordOf(value);
      return Found(Token(kind, value), q - p);
    }
    return Wrong(TokenizeInvalidCharacter);
  }

  /**
   `tokenize`: the array receives the tokens and the final EOF, and `count` says how many;
   it is never written past its end, and only a capacity of zero is refused outright.
   */
  method Tokenize(input: string, storage: array<Token>) returns (status: TokenizeStatus, count: nat)
    modifies storage
    ensures storage.Length == 0 ==> status == TokenizeNullInput
    ensures storage.Length > 0 ==>
              match Lex(input, storage.Length - 1)
              case Tokens(ts) => status == TokenizeOk && count == |ts| <= storage.Length && storage[..count] == ts
              case LexError(e) => status == e && count == 0
  {
    hide FirstToken, Span, Lex;
    count := 0;
    if storage.Length == 0 { return TokenizeNullInput, 0; }
    ghost var whole := Lex(input, storage.Length - 1);
    var p := 0;
    assert input[0..] == input;
    while p < |input| && input[p] != '\0'
      invariant p <= |input| && count <= storage.Length - 1
      invariant whole == Prepend(storage[..count], Lex(input[p..], storage.Length - 1 - count))
      decreases |input| - p
    {
      ghost var room := storage.Length - 1 - count;
      LexStep(input, p, room);
      p := SkipSpace(input, p);
      if p >= |input| || input[p] == '\0' { break; }
      if count >= storage.Length - 1 { return TokenizeTooManyTokens, 0; }
      var one := ScanToken(input, p);
      if one.Wrong? { return one.status, 0; }
      ghost var kept := storage[..count];
      storage[count] := one.token;
      assert storage[..count + 1] == kept + [one.token];
      PrependTwice(kept, one.token, Lex(input[p + one.length..], room - 1));
      count := count + 1;
      p := p + one.length;
    }
    LexEnd(input, p, storage.Length - 1 - count);
    ghost var kept := storage[..count];
    storage[count] := EOF;
    assert storage[..count + 1] == kept + [EOF];
    return TokenizeOk, count + 1;
  }

  lemma LexStep(s: string, p: nat, room: nat)
    requires p <= |s|
    ensures var q := p + Span(s[p..], Space);
            if q >= |s| || s[q] == '\0' then Lex(s[p..], room) == Tokens([EOF])
            else if room == 0 then Lex(s[p..], room) == LexError(TokenizeTooManyTokens)
            else match FirstToken(s[q..])
                 case Wrong(status) => Lex(s[p..], room) == LexError(status)
                 case Found(token, length) => Lex(s[p..], room) == Prepend([token], Lex(s[q + length..], room - 1))
  {
    hide FirstToken, Span;
    var t := s[p..];
    var n := Span(t, Space);
    var u := t[n..];
    assert u == s[p + n..];
    if u != "" && u[0] != '\0' && room > 0 {
      match FirstToken(u)
      case Wrong(_) =>
      case Found(token, length) => assert u[length..] == s[p + n + length..];
    }
  }

  lemma LexEnd(s: string, p: nat, room: nat)
    requires p <= |s| && (p == |s| || s[p] == '\0' || Lex(s[p..], room) == Tokens([EOF]))
    ensures Lex(s[p..], room) == Tokens([EOF])
  {
    if p == |s| || s[p] == '\0' { LexStep(s, p, room); }
  }

  lemma PrependTwice(front: seq<Token>, t: Token, l: Lexed)
    ensures Prepend(front, Prepend([t], l)) == Prepend(front + [t], l)
  {
    if l.Tokens? { assert front + ([t] + l.tokens) == front + [t] + l.tokens; }
  }
}
