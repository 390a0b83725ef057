/**
 Statements and the two columns every table has (include/parser.h, src/column.c), and the
 reading of a number (src/util.c).
 */
module Sql {
  import opened Bytes

  const MAX_COLUMNS: nat := 10
  /** Longest identifier, table name or stored name, without its NUL. */
  const MAX_NAME: nat := 31

  datatype LiteralType = LiteralNumber | LiteralString

  datatype SelectQuery = SelectQuery(
    tableName: string,
    selectAll: bool,
    columns: seq<string>,
    hasWhere: bool,
    whereColumn: string,
    whereValue: string,
    whereValueType: LiteralType)

  datatype InsertQuery = InsertQuery(tableName: string, id: int32, name: string)

  datatype Ast = AstUnknown | AstSelect(select: SelectQuery) | AstInsert(insert: InsertQuery)

  datatype Column = ColumnId | ColumnName | ColumnAll | ColumnInvalid

  function ColumnFromName(name: string): Column {
    if name == "*" then ColumnAll
    else if name == "id" then ColumnId
    else if name == "name" then ColumnName
    else ColumnInvalid
  }

  // ----- characters of the C locale -----

  predicate IsSpace(c: char) {
    c == ' ' || '\t' <= c <= '\r'
  }

  predicate IsDigit(c: char) {
    '0' <= c <= '9'
  }

  predicate IsAlpha(c: char) {
    'a' <= c <= 'z' || 'A' <= c <= 'Z'
  }

  /** These classes, by the codes of their characters. */
  lemma CharacterCodes(c: char)
    ensures IsSpace(c) <==> c as int in {9, 10, 11, 12, 13, 32}
    ensures IsDigit(c) <==> 48 <= c as int <= 57
    ensures IsAlpha(c) <==> 65 <= c as int <= 90 || 97 <= c as int <= 122
  {
  }

  // ----- numbers -----

  function DigitValue(c: char): nat
    requires IsDigit(c)
  {
    (c as int) - ('0' as int)
  }

  predicate AllDigits(s: string) {
    forall i :: 0 <= i < |s| ==> IsDigit(s[i])
  }

  /** The value of a run of decimal digits. */
  function Decimal(s: string): nat
    requires AllDigits(s)
  {
    if s == "" then 0 else 10 * Decimal(s[..|s| - 1]) + DigitValue(s[|s| - 1])
  }

  function Pow10(k: nat): nat {
    if k == 0 then 1 else 10 * Pow10(k - 1)
  }

  /** Each digit counts its power of ten, whatever zeros lead. */
  lemma {:induction false} DecimalJoins(a: string, b: string)
    requires AllDigits(a) && AllDigits(b)
    ensures AllDigits(a + b) && Decimal(a + b) == Decimal(a) * Pow10(|b|) + Decimal(b)
    decreases |b|
  {
    if b == "" {
      assert a + b == a;
    } else {
      var front, whole := b[..|b| - 1], a + b;
      DecimalJoins(a, front);
      assert whole[..|whole| - 1] == a + front && whole[|whole| - 1] == b[|b| - 1];
      TimesTen(Decimal(a), Pow10(|front|));
    }
  }

  lemma TimesTen(x: nat, p: nat)
    ensures x * (10 * p) == 10 * (x * p)
  {
  }

  lemma DecimalOfOne(c: char)
    requires IsDigit(c)
    ensures Decimal([c]) == c as int - 48
  {
    assert [c][..0] == "";
  }

  function SkipSpaces(s: string): string {
    if s != "" && IsSpace(s[0]) then SkipSpaces(s[1..]) else s
  }

  /**
   `util_parse_int32`: leading spaces and one sign as strtoimax takes them, then nothing
   but digits, at least one, with a value an int32 can hold.
   */
  function ParseInt32(text: string): Option<int32> {
    var s := SkipSpaces(text);
    var negative := s != "" && s[0] == '-';
    var digits := if s != "" && (s[0] == '-' || s[0] == '+') then s[1..] else s;
    if digits == "" || !AllDigits(digits) then None else
    var v: int := if negative then 0 - Decimal(digits) else Decimal(digits);
    if -0x8000_0000 <= v < 0x8000_0000 then Some(v) else None
  }

  /** White space, one sign or none, and digits. */
  ghost predicate Numeral(text: string, gap: string, sign: string, digits: string) {
    && text == gap + sign + digits
    && (forall i :: 0 <= i < |gap| ==> IsSpace(gap[i]))
    && sign in {"", "+", "-"} && digits != "" && AllDigits(digits)
  }

  /** Exactly the numerals whose value is an int32 are read, and as that value. */
  lemma ParseInt32Exact(text: string, v: int)
    ensures ParseInt32(text).Some? && ParseInt32(text).value == v <==>
            && -0x8000_0000 <= v <= 0x7FFF_FFFF
            && exists gap, sign, digits :: Numeral(text, gap, sign, digits)
                                           && v == if sign == "-" then 0 - Decimal(digits) else Decimal(digits)
  {
    hide Decimal, SkipSpaces, ParseInt32;
    if ParseInt32(text).Some? { var gap, sign, digits := ReadNumeral(text); }
    forall gap, sign, digits | Numeral(text, gap, sign, digits)
      ensures var w := if sign == "-" then 0 - Decimal(digits) else Decimal(digits);
              ParseInt32(text) == if -0x8000_0000 <= w <= 0x7FFF_FFFF then Some(w) else None
    {
      NumeralIsRead(text, gap, sign, digits);
    }
  }

  lemma ReadNumeral(text: string) returns (gap: string, sign: string, digits: string)
    requires ParseInt32(text).Some?
    ensures Numeral(text, gap, sign, digits)
    ensures ParseInt32(text).value == if sign == "-" then 0 - Decimal(digits) else Decimal(digits)
  {
    hide Decimal, SkipSpaces;
    gap := SkippedSpaces(text);
    var s := SkipSpaces(text);
    sign := if s[0] == '-' || s[0] == '+' then [s[0]] else "";
    digits := s[|sign|..];
    assert s == sign + digits && text == gap + sign + digits;
  }

  lemma NumeralIsRead(text: string, gap: string, sign: string, digits: string)
    requires Numeral(text, gap, sign, digits)
    ensures var w := if sign == "-" then 0 - Decimal(digits) else Decimal(digits);
            ParseInt32(text) == if -0x8000_0000 <= w <= 0x7FFF_FFFF then Some(w) else None
  {
    hide Decimal;
    assert text == gap + (sign + digits);
    SkipTheSpaces(gap, sign + digits);
    if sign == "" { assert "" + digits == digits; } else { assert (sign + digits)[1..] == digits; }
  }

  lemma {:induction false} SkippedSpaces(s: string) returns (gap: string)
    ensures s == gap + SkipSpaces(s) && forall i :: 0 <= i < |gap| ==> IsSpace(gap[i])
  {
    if s != "" && IsSpace(s[0]) {
      var rest := SkippedSpaces(s[1..]);
      gap := [s[0]] + rest;
    } else {
      gap := "";
    }
  }

  lemma {:induction false} SkipTheSpaces(gap: string, s: string)
    requires (forall i :: 0 <= i < |gap| ==> IsSpace(gap[i])) && s != "" && !IsSpace(s[0])
    ensures SkipSpaces(gap + s) == s
  {
    if gap == "" {
      assert gap + s == s;
    } else {
      assert (gap + s)[1..] == gap[1..] + s;
      SkipTheSpaces(gap[1..], s);
    }
  }

  function ByteOf(c: char): byte {
    if c < 256 as char then c as int else 255
  }

  /** A C string's characters as unsigned bytes; no byte stands for a character above 255. */
  function BytesOf(s: string): (r: seq<byte>)
    ensures |r| == |s|
    ensures forall i :: 0 <= i < |s| ==> r[i] == if (s[i] as int) < 256 then s[i] as int else 255
    decreases |s|
  {
    if s == "" then [] else BytesOf(s[..|s| - 1]) + [ByteOf(s[|s| - 1])]
  }
}
