/** Splitting a line of SQL into tokens. */
module Tokens {
  import opened Pages

  const INT64_MAX: int := 0x7FFF_FFFF_FFFF_FFFF

  datatype TokenKind =
    | SelectToken | InsertToken | IntoToken | ValuesToken | FromToken | WhereToken | CreateToken | TableToken
    | DeleteToken | AndToken | OrToken | NotToken | PrimaryToken | KeyToken | IntToken | TextToken | ExplainToken
    | IdentifierToken | IntegerToken | StringToken
    | LeftParenToken | RightParenToken | CommaToken | SemicolonToken | StarToken | MinusToken
    | EqualToken | NotEqualToken | LessToken | LessEqualToken | GreaterToken | GreaterEqualToken
    | EndToken | ErrorToken

  // A token and its text exactly as typed; an integer's value, unless it is out of range.
  datatype Token = Token(kind: TokenKind, text: Text, integer: int, outOfRange: bool)

  function Plain(kind: TokenKind, text: Text): Token {
    Token(kind, text, 0, false)
  }

  const END: Token := Token(EndToken, [], 0, false)

  // ------------------------------------------------------------ characters

  predicate IsSpace(c: Byte) { c == ' ' || c == '\t' || c == '\r' || c == '\n' }

  predicate IsDigit(c: Byte) { '0' <= c <= '9' }

  predicate IsNameStart(c: Byte) { 'a' <= c <= 'z' || 'A' <= c <= 'Z' || c == '_' }

  predicate IsNameChar(c: Byte) { IsNameStart(c) || IsDigit(c) }

  function LowerChar(c: Byte): Byte {
    if 'A' <= c <= 'Z' then ((c as int) + 32) as char else c
  }

  function Lower(t: Text): (l: Text)
    ensures |l| == |t| && forall i :: 0 <= i < |t| ==> l[i] == LowerChar(t[i])
  {
    seq(|t|, i requires 0 <= i < |t| => LowerChar(t[i]))
  }

  // ------------------------------------------------------------ keywords

  const KEYWORDS: seq<(Text, TokenKind)> := [
    ("select", SelectToken), ("insert", InsertToken), ("into", IntoToken), ("values", ValuesToken),
    ("from", FromToken), ("where", WhereToken), ("create", CreateToken), ("table", TableToken),
    ("delete", DeleteToken), ("and", AndToken), ("or", OrToken), ("not", NotToken),
    ("primary", PrimaryToken), ("key", KeyToken), ("int", IntToken), ("text", TextToken), ("explain", ExplainToken)]

  // The first entry of the table from `i` on that spells the word, case aside.
  function KeywordFrom(word: Text, i: nat): TokenKind
    requires i <= |KEYWORDS|
    decreases |KEYWORDS| - i
  {
    if i == |KEYWORDS| then IdentifierToken
    else if Lower(word) == KEYWORDS[i].0 then KEYWORDS[i].1
    else KeywordFrom(word, i + 1)
  }

  function Keyword(word: Text): TokenKind {
    KeywordFrom(word, 0)
  }

  method KeywordOrIdentifier(word: Text) returns (kind: TokenKind)
    ensures kind == Keyword(word)
  {
    var i := 0;
    while i < |KEYWORDS|
      invariant 0 <= i <= |KEYWORDS| && Keyword(word) == KeywordFrom(word, i)
    {
      var keyword := KEYWORDS[i].0;
      var matched := 0;
      while matched < |word| && matched < |keyword| && LowerChar(word[matched]) == keyword[matched]
        invariant 0 <= matched <= |word| && matched <= |keyword|
        invariant forall k :: 0 <= k < matched ==> LowerChar(word[k]) == keyword[k]
      {
        matched := matched + 1;
      }
      if matched == |word| && matched == |keyword| {
        assert Lower(word) == keyword;
        return KEYWORDS[i].1;
      }
      assert Lower(word) != keyword;
      i := i + 1;
    }
    return IdentifierToken;
  }

  // ------------------------------------------------------------ runs of characters

  // The longest prefix made of name characters.
  function NameRun(s: Text): (n: nat)
    ensures n <= |s| && (forall i :: 0 <= i < n ==> IsNameChar(s[i])) && (n < |s| ==> !IsNameChar(s[n]))
  {
    if |s| > 0 && IsNameChar(s[0]) then 1 + NameRun(s[1..]) else 0
  }

  function DigitRun(s: Text): (n: nat)
    ensures n <= |s| && (forall i :: 0 <= i < n ==> IsDigit(s[i])) && (n < |s| ==> !IsDigit(s[n]))
  {
    if |s| > 0 && IsDigit(s[0]) then 1 + DigitRun(s[1..]) else 0
  }

  // From after an opening quote: how many characters the string's content takes, its
  // closing quote not counted; or the length of the input when it never closes.
  function StringRun(s: Text): (n: nat)
    ensures n <= |s|
  {
    if |s| == 0 then 0
    else if s[0] == '\'' then
      if |s| > 1 && s[1] == '\'' then 2 + StringRun(s[2..]) else 0
    else 1 + StringRun(s[1..])
  }

  // A comment, up to the end of its line.
  function LineRun(s: Text): (n: nat)
    ensures n <= |s|
  {
    if |s| > 0 && s[0] != '\n' then 1 + LineRun(s[1..]) else 0
  }

  predicate IsContinuation(c: Byte) { 0x80 <= c as int < 0xC0 }

  function ContinuationRun(s: Text): (n: nat)
    ensures n <= |s|
  {
    if |s| > 0 && IsContinuation(s[0]) then 1 + ContinuationRun(s[1..]) else 0
  }

  // What is left once whitespace and comments are skipped.
  function SkipBlank(s: Text): (r: Text)
    ensures |r| <= |s|
    ensures |r| > 0 ==> !IsSpace(r[0])
    decreases |s|
  {
    if |s| > 0 && IsSpace(s[0]) then SkipBlank(s[1..])
    else if |s| > 1 && s[0] == '-' && s[1] == '-' then SkipBlank(s[2 + LineRun(s[2..])..])
    else s
  }

  // ------------------------------------------------------------ numbers

  function DigitOf(c: Byte): (d: nat)
    requires IsDigit(c)
    ensures d <= 9
  {
    c as int - '0' as int
  }

  // The number a run of digits spells, however long.
  function Value(digits: Text): (v: nat)
    requires forall i :: 0 <= i < |digits| ==> IsDigit(digits[i])
  {
    if |digits| == 0 then 0
    else Value(digits[..|digits| - 1]) * 10 + DigitOf(digits[|digits| - 1])
  }

  // The value read digit by digit, with the overflow check made before each step.
  function Read(digits: Text): (int, bool)
    requires forall i :: 0 <= i < |digits| ==> IsDigit(digits[i])
  {
    if |digits| == 0 then (0, false)
    else
      var (v, out) := Read(digits[..|digits| - 1]);
      ReadDigit(v, out, DigitOf(digits[|digits| - 1]))
  }

  function ReadDigit(value: int, outOfRange: bool, digit: nat): (int, bool) {
    if outOfRange || value > (INT64_MAX - digit) / 10 then (value, true) else (value * 10 + digit, false)
  }

  /** A number is flagged out of range exactly when it exceeds INT64_MAX; otherwise its value is exact. */
  lemma {:induction false} ReadIsValue(digits: Text)
    requires forall i :: 0 <= i < |digits| ==> IsDigit(digits[i])
    ensures Read(digits).1 <==> Value(digits) > INT64_MAX
    ensures !Read(digits).1 ==> Read(digits).0 == Value(digits)
  {
    if |digits| > 0 {
      ReadIsValue(digits[..|digits| - 1]);
    }
  }

  function NumberToken(s: Text): (r: (Token, Text))
    ensures |s| > 0 && IsDigit(s[0]) ==> |r.1| < |s|
    ensures r.0.kind == IntegerToken || r.0.kind == ErrorToken
  {
    NumberOf(s, DigitRun(s))
  }

  // What a text that starts with n digits, and no more, comes to.
  function NumberOf(s: Text, n: nat): (Token, Text)
    requires n <= |s| && forall k :: 0 <= k < n ==> IsDigit(s[k])
  {
    if n < |s| && IsNameChar(s[n]) then
      Taking(ErrorToken, s, n + NameRun(s[n..]))
    else
      (Token(IntegerToken, s[..n], Read(s[..n]).0, Read(s[..n]).1), s[n..])
  }

  // ------------------------------------------------------------ the next token

  function Taking(kind: TokenKind, s: Text, n: nat): (Token, Text)
    requires n <= |s|
  {
    (Plain(kind, s[..n]), s[n..])
  }

  // A symbol's kind and how many characters it takes.
  function SymbolKind(first: Byte, second: Byte): (r: (TokenKind, nat))
    ensures r.1 == 1 || (r.1 == 2 && second != '\0')
    ensures r.0 != EndToken && r.0 != StringToken
  {
    match first
    case '(' => (LeftParenToken, 1)
    case ')' => (RightParenToken, 1)
    case ',' => (CommaToken, 1)
    case ';' => (SemicolonToken, 1)
    case '*' => (StarToken, 1)
    case '-' => (MinusToken, 1)
    case '=' => (EqualToken, 1)
    case '!' => if second == '=' then (NotEqualToken, 2) else (ErrorToken, 1)
    case '<' =>
      if second == '=' then (LessEqualToken, 2) else if second == '>' then (NotEqualToken, 2) else (LessToken, 1)
    case '>' => if second == '=' then (GreaterEqualToken, 2) else (GreaterToken, 1)
    case _ => (ErrorToken, 1)
  }

  // A character outside ASCII takes its continuation bytes with it.
  function SymbolToken(s: Text): (r: (Token, Text))
    requires |s| > 0
    ensures |r.1| < |s| && r.0.kind != EndToken && r.0.kind != StringToken
  {
    if s[0] as int >= 0x80 then Taking(ErrorToken, s, 1 + ContinuationRun(s[1..]))
    else
      var (kind, n) := SymbolKind(s[0], if |s| > 1 then s[1] else '\0');
      Taking(kind, s, n)
  }

  function StringTokenOf(s: Text): (r: (Token, Text))
    requires |s| > 0
    ensures |r.1| < |s| && (r.0.kind == ErrorToken || (r.0.kind == StringToken && |r.0.text| >= 2))
  {
    var n := 1 + StringRun(s[1..]);
    if n == |s| then Taking(ErrorToken, s, n) else Taking(StringToken, s, n + 1)
  }

  // The token at the front of the input, and the input after it.
  function NextToken(s: Text): (r: (Token, Text))
    ensures |r.1| <= |s|
    ensures r.0.kind != EndToken ==> |r.1| < |s|
    ensures r.0.kind == EndToken ==> r == (END, [])
    ensures r.0.kind == StringToken ==> |r.0.text| >= 2
  {
    var t := SkipBlank(s);
    if |t| == 0 then (END, [])
    else if IsNameStart(t[0]) then Word(t)
    else if IsDigit(t[0]) then NumberToken(t)
    else if t[0] == '\'' then StringTokenOf(t)
    else SymbolToken(t)
  }

  function Word(t: Text): (r: (Token, Text))
    requires |t| > 0 && IsNameStart(t[0])
    ensures |r.1| < |t| && r.0.kind != EndToken && r.0.kind != StringToken
  {
    KeywordIsName(t[..NameRun(t)], 0);
    Taking(Keyword(t[..NameRun(t)]), t, NameRun(t))
  }

  lemma KeywordIsName(word: Text, i: nat)
    requires i <= |KEYWORDS|
    ensures KeywordFrom(word, i) !in {EndToken, ErrorToken, StringToken}
    decreases |KEYWORDS| - i
  {
  }

  // All the tokens of the input, the end-of-statement token last.
  function Tokenize(s: Text): (ts: seq<Token>)
    ensures |ts| > 0 && ts[|ts| - 1] == END
    decreases |s|
  {
    var (t, rest) := NextToken(s);
    if t.kind == EndToken then [END] else [t] + Tokenize(rest)
  }

  // ------------------------------------------------------------ the tokenizer

  // The run functions seen from inside the input.
  lemma RunStep(s: Text, pos: nat)
    requires pos < |s|
    ensures s[pos..][0] == s[pos] && s[pos..][1..] == s[pos + 1..]
    ensures pos + 1 < |s| ==> s[pos..][1] == s[pos + 1] && s[pos..][2..] == s[pos + 2..]
  {
  }

  lemma SliceOfRest(sql: Text, start: nat, pos: nat)
    requires start <= pos <= |sql|
    ensures sql[start..][..pos - start] == sql[start..pos] && sql[start..][pos - start..] == sql[pos..]
  {
  }

  // One more digit of the input.
  lemma {:induction false} ReadStep(sql: Text, start: nat, pos: nat)
    requires start <= pos < |sql| && forall i :: start <= i <= pos ==> IsDigit(sql[i])
    ensures var r := Read(sql[start..pos]); Read(sql[start..pos + 1]) == ReadDigit(r.0, r.1, DigitOf(sql[pos]))
  {
    assert sql[start..pos + 1][..pos - start] == sql[start..pos];
    assert sql[start..pos + 1][pos - start] == sql[pos];
  }

  method SkipName(sql: Text, start: nat) returns (pos: nat)
    requires start <= |sql|
    ensures pos == start + NameRun(sql[start..]) && pos <= |sql|
  {
    pos := start;
    while pos < |sql| && IsNameChar(sql[pos])
      invariant start <= pos <= |sql| && start + NameRun(sql[start..]) == pos + NameRun(sql[pos..])
    {
      RunStep(sql, pos);
      pos := pos + 1;
    }
  }

  lemma {:induction false} SkipSpace(s: Text)
    requires |s| > 0 && IsSpace(s[0])
    ensures SkipBlank(s) == SkipBlank(s[1..])
  {
  }

  lemma {:induction false} SkipComment(s: Text)
    requires |s| > 1 && s[0] == '-' && s[1] == '-'
    ensures SkipBlank(s) == SkipBlank(s[2 + LineRun(s[2..])..])
  {
  }

  lemma {:induction false} SkipNothing(s: Text)
    requires |s| > 0 ==> !IsSpace(s[0])
    requires |s| > 1 ==> s[0] != '-' || s[1] != '-'
    ensures SkipBlank(s) == s
  {
  }

  method ReadWord(sql: Text, start: nat) returns (token: Token, pos: nat)
    requires start < |sql| && IsNameStart(sql[start])
    ensures pos <= |sql| && (token, sql[pos..]) == Word(sql[start..])
  {
    pos := SkipName(sql, start);
    SliceOfRest(sql, start, pos);
    var kind := KeywordOrIdentifier(sql[start..pos]);
    token := Plain(kind, sql[start..pos]);
  }

  /** Skips whitespace and comments. */
  method SkipBlanks(sql: Text, start: nat) returns (pos: nat)
    requires start <= |sql|
    ensures start <= pos <= |sql| && sql[pos..] == SkipBlank(sql[start..])
  {
    pos := start;
    var more := true;
    while more
      invariant start <= pos <= |sql| && SkipBlank(sql[start..]) == SkipBlank(sql[pos..])
      invariant !more ==> SkipBlank(sql[pos..]) == sql[pos..]
      decreases more, |sql| - pos
    {
      pos, more := SkipOne(sql, pos);
    }
  }

  // Skips one space or one comment, if there is one.
  method SkipOne(sql: Text, start: nat) returns (pos: nat, skipped: bool)
    requires start <= |sql|
    ensures start <= pos <= |sql| && (skipped ==> start < pos) && SkipBlank(sql[start..]) == SkipBlank(sql[pos..])
    ensures !skipped ==> SkipBlank(sql[pos..]) == sql[pos..]
  {
    pos, skipped := start, false;
    if start < |sql| { RunStep(sql, start); }
    if start < |sql| && IsSpace(sql[start]) {
      SkipSpace(sql[start..]);
      pos, skipped := start + 1, true;
    } else if start + 1 < |sql| && sql[start] == '-' && sql[start + 1] == '-' {
      SkipComment(sql[start..]);
      pos := SkipLine(sql, start + 2);
      skipped := true;
      assert sql[start..][pos - start..] == sql[pos..];
    } else {
      SkipNothing(sql[start..]);
    }
  }

  method SkipLine(sql: Text, start: nat) returns (pos: nat)
    requires start <= |sql|
    ensures pos == start + LineRun(sql[start..]) && pos <= |sql|
  {
    pos := start;
    while pos < |sql| && sql[pos] != '\n'
      invariant start <= pos <= |sql| && start + LineRun(sql[start..]) == pos + LineRun(sql[pos..])
    {
      RunStep(sql, pos);
      pos := pos + 1;
    }
  }

  // The value and the flag after one more digit, the check made before the value can overflow.
  method TakeDigit(value: int, outOfRange: bool, digit: nat) returns (value': int, outOfRange': bool)
    ensures (value', outOfRange') == ReadDigit(value, outOfRange, digit)
  {
    value', outOfRange' := value, outOfRange;
    if !outOfRange {
      if value > (INT64_MAX - digit) / 10 { outOfRange' := true; } else { value' := value * 10 + digit; }
    }
  }

  /** Reads a run of digits, never letting the value overflow. */
  method ReadDigits(sql: Text, start: nat) returns (value: int, outOfRange: bool, pos: nat)
    requires start <= |sql|
    ensures pos == start + DigitRun(sql[start..]) && pos <= |sql|
    ensures forall i :: start <= i < pos ==> IsDigit(sql[i])
    ensures value == Read(sql[start..pos]).0 && outOfRange == Read(sql[start..pos]).1
  {
    pos := start;
    value, outOfRange := 0, false;
    while pos < |sql| && IsDigit(sql[pos])
      invariant start <= pos <= |sql| && start + DigitRun(sql[start..]) == pos + DigitRun(sql[pos..])
      invariant forall i :: start <= i < pos ==> IsDigit(sql[i])
      invariant (value, outOfRange) == Read(sql[start..pos])
    {
      RunStep(sql, pos);
      ReadStep(sql, start, pos);
      value, outOfRange := TakeDigit(value, outOfRange, DigitOf(sql[pos]));
      pos := pos + 1;
    }
  }

  // A run of digits inside the input, and what it comes to: by itself, or with a name running on from it.
  lemma {:induction false} NumberWhole(sql: Text, start: nat, end: nat)
    requires start <= end <= |sql| && (forall i :: start <= i < end ==> IsDigit(sql[i]))
    requires end < |sql| ==> !IsNameChar(sql[end])
    ensures var r := Read(sql[start..end]);
      NumberOf(sql[start..], end - start) == (Token(IntegerToken, sql[start..end], r.0, r.1), sql[end..])
  {
    SliceOfRest(sql, start, end);
  }

  lemma {:induction false} NumberSpoilt(sql: Text, start: nat, end: nat, pos: nat)
    requires start <= end < pos <= |sql| && (forall i :: start <= i < end ==> IsDigit(sql[i]))
    requires IsNameChar(sql[end]) && pos == end + NameRun(sql[end..])
    ensures NumberOf(sql[start..], end - start) == (Plain(ErrorToken, sql[start..pos]), sql[pos..])
  {
    SliceOfRest(sql, start, end);
    SliceOfRest(sql, start, pos);
    assert Taking(ErrorToken, sql[start..], pos - start) == (Plain(ErrorToken, sql[start..pos]), sql[pos..]);
  }

  method ReadNumber(sql: Text, start: nat) returns (token: Token, pos: nat)
    requires start < |sql| && IsDigit(sql[start])
    ensures pos <= |sql| && (token, sql[pos..]) == NumberToken(sql[start..])
  {
    var value, outOfRange, end;
    value, outOfRange, end := ReadDigits(sql, start);
    token, pos := EndNumber(sql, start, end, value, outOfRange);
  }

  // The token of a run of digits that has been read, or an error if a name runs on from it.
  method EndNumber(sql: Text, start: nat, end: nat, value: int, outOfRange: bool) returns (token: Token, pos: nat)
    requires start <= end <= |sql| && forall i :: start <= i < end ==> IsDigit(sql[i])
    requires value == Read(sql[start..end]).0 && outOfRange == Read(sql[start..end]).1
    ensures pos <= |sql| && (token, sql[pos..]) == NumberOf(sql[start..], end - start)
  {
    if end < |sql| && IsNameChar(sql[end]) {
      pos := SkipName(sql, end);
      NumberSpoilt(sql, start, end, pos);
      token := Plain(ErrorToken, sql[start..pos]);
    } else {
      pos := end;
      NumberWhole(sql, start, end);
      token := Token(IntegerToken, sql[start..end], value, outOfRange);
    }
  }

  // One step through a string's content: its end, or what the rest of it takes.
  lemma {:induction false} StringRunStep(s: Text)
    requires |s| > 0
    ensures s[0] != '\'' ==> StringRun(s) == 1 + StringRun(s[1..])
    ensures s[0] == '\'' ==> StringRun(s) == if |s| > 1 && s[1] == '\'' then 2 + StringRun(s[2..]) else 0
  {
  }

  /** Finds where a string's content ends: at a quote that is not doubled, or with the input. */
  method SkipString(sql: Text, start: nat) returns (pos: nat)
    requires start <= |sql|
    ensures start <= pos <= |sql| && pos == start + StringRun(sql[start..])
  {
    pos := start;
    var more := pos < |sql|;
    while more
      invariant start <= pos <= |sql| && start + StringRun(sql[start..]) == pos + StringRun(sql[pos..])
      invariant more ==> pos < |sql|
      invariant !more ==> StringRun(sql[pos..]) == 0
      decreases more, |sql| - pos
    {
      RunStep(sql, pos);
      StringRunStep(sql[pos..]);
      if sql[pos] != '\'' {
        pos := pos + 1;
        more := pos < |sql|;
      } else if pos + 1 < |sql| && sql[pos + 1] == '\'' {
        pos := pos + 2;
        more := pos < |sql|;
      } else {
        more := false;
      }
    }
  }

  /** Reads a quoted string; two quotes in a row stand for one inside it. */
  method ReadString(sql: Text, start: nat) returns (token: Token, pos: nat)
    requires start < |sql|
    ensures pos <= |sql| && (token, sql[pos..]) == StringTokenOf(sql[start..])
  {
    pos := SkipString(sql, start + 1);
    assert sql[start..][1..] == sql[start + 1..];
    var closed := pos < |sql|;
    if closed { pos := pos + 1; }
    SliceOfRest(sql, start, pos);
    token := Plain(if closed then StringToken else ErrorToken, sql[start..pos]);
  }

  method ReadSymbol(sql: Text, start: nat) returns (token: Token, pos: nat)
    requires start < |sql|
    ensures pos <= |sql| && (token, sql[pos..]) == SymbolToken(sql[start..])
  {
    var kind;
    if sql[start] as int >= 0x80 {
      kind := ErrorToken;
      pos := SkipContinuation(sql, start + 1);
      assert sql[start..][1..] == sql[start + 1..];
    } else {
      var second := if start + 1 < |sql| then sql[start + 1] else '\0';
      kind, pos := ReadSymbolKind(sql[start], second, start);
      assert start + 1 < |sql| ==> sql[start..][1] == sql[start + 1];
    }
    SliceOfRest(sql, start, pos);
    token := Plain(kind, sql[start..pos]);
  }

  method ReadSymbolKind(first: Byte, second: Byte, start: nat) returns (kind: TokenKind, pos: nat)
    ensures (kind, pos - start) == SymbolKind(first, second)
  {
    pos := start + 1;
    match first {
      case '(' => kind := LeftParenToken;
      case ')' => kind := RightParenToken;
      case ',' => kind := CommaToken;
      case ';' => kind := SemicolonToken;
      case '*' => kind := StarToken;
      case '-' => kind := MinusToken;
      case '=' => kind := EqualToken;
      case '!' => if second == '=' { pos := pos + 1; kind := NotEqualToken; } else { kind := ErrorToken; }
      case '<' =>
        if second == '=' { pos := pos + 1; kind := LessEqualToken; }
        else if second == '>' { pos := pos + 1; kind := NotEqualToken; }
        else { kind := LessToken; }
      case '>' => if second == '=' { pos := pos + 1; kind := GreaterEqualToken; } else { kind := GreaterToken; }
      case _ => kind := ErrorToken;
    }
  }

  method SkipContinuation(sql: Text, start: nat) returns (pos: nat)
    requires start <= |sql|
    ensures pos == start + ContinuationRun(sql[start..]) && pos <= |sql|
  {
    pos := start;
    while pos < |sql| && IsContinuation(sql[pos])
      invariant start <= pos <= |sql| && start + ContinuationRun(sql[start..]) == pos + ContinuationRun(sql[pos..])
    {
      RunStep(sql, pos);
      pos := pos + 1;
    }
  }

  class Tokenizer {
    const sql: Text
    var position: nat

    constructor (sql: Text)
      ensures this.sql == sql && position == 0
    {
      this.sql, position := sql, 0;
    }

    ghost predicate Valid()
      reads this
    {
      position <= |sql|
    }

    // The input not yet read.
    ghost function Rest(): Text
      reads this
      requires Valid()
    {
      sql[position..]
    }

    method Next() returns (token: Token)
      requires Valid()
      modifies this
      ensures Valid() && (token, Rest()) == NextToken(old(Rest()))
    {
      var start := SkipBlanks(sql, position);
      if start == |sql| {
        token, position := END, start;
      } else if IsNameStart(sql[start]) {
        token, position := ReadWord(sql, start);
      } else if IsDigit(sql[start]) {
        token, position := ReadNumber(sql, start);
      } else if sql[start] == '\'' {
        token, position := ReadString(sql, start);
      } else {
        token, position := ReadSymbol(sql, start);
      }
    }
  }
}
