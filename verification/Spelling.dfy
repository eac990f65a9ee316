/** The spelling of every token, written out, and the tokenizer's agreement with it. */
module Spelling {
  import opened Pages
  import opened Tokens
  import opened Parsing
  import opened Lexing
  import opened Records

  // ------------------------------------------------------------ how tokens are spelled

  // A keyword in lower case; it may be typed in any case.
  function KeywordText(kind: TokenKind): Option<Text> {
    match kind
    case SelectToken => Some("select")
    case InsertToken => Some("insert")
    case IntoToken => Some("into")
    case ValuesToken => Some("values")
    case FromToken => Some("from")
    case WhereToken => Some("where")
    case CreateToken => Some("create")
    case TableToken => Some("table")
    case DeleteToken => Some("delete")
    case AndToken => Some("and")
    case OrToken => Some("or")
    case NotToken => Some("not")
    case PrimaryToken => Some("primary")
    case KeyToken => Some("key")
    case IntToken => Some("int")
    case TextToken => Some("text")
    case ExplainToken => Some("explain")
    case _ => None
  }

  predicate SymbolSpelled(kind: TokenKind, text: Text) {
    match kind
    case LeftParenToken => text == "("
    case RightParenToken => text == ")"
    case CommaToken => text == ","
    case SemicolonToken => text == ";"
    case StarToken => text == "*"
    case MinusToken => text == "-"
    case EqualToken => text == "="
    case NotEqualToken => text == "!=" || text == "<>"
    case LessToken => text == "<"
    case LessEqualToken => text == "<="
    case GreaterToken => text == ">"
    case GreaterEqualToken => text == ">="
    case _ => false
  }

  predicate IsLetter(c: Byte) {
    'a' <= c <= 'z' || 'A' <= c <= 'Z' || c == '_'
  }

  // Letters, digits and underscores, no digit first.
  predicate IsWord(w: Text) {
    |w| > 0 && IsLetter(w[0]) && forall i :: 0 <= i < |w| ==> IsLetter(w[i]) || '0' <= w[i] <= '9'
  }

  predicate SameWord(a: Text, b: Text) {
    |a| == |b| && forall i :: 0 <= i < |a| ==> SameLetter(a[i], b[i])
  }

  predicate IsKeyword(w: Text, kind: TokenKind) {
    KeywordText(kind).Some? && SameWord(w, KeywordText(kind).value)
  }

  // A word that is no keyword: what a table or a column may be called.
  ghost predicate IsPlainName(w: Text) {
    IsWord(w) && forall kind :: !IsKeyword(w, kind)
  }

  // Digits, the number they spell flagged when it exceeds 64 signed bits.
  predicate IsNumber(t: Token) {
    && |t.text| > 0 && (forall i :: 0 <= i < |t.text| ==> '0' <= t.text[i] <= '9')
    && (t.outOfRange <==> Value(t.text) > 9223372036854775807)
    && t.integer == if t.outOfRange then Read(t.text).0 else Value(t.text)
  }

  // Text between single quotes, each quote in it doubled.
  ghost predicate IsQuoted(q: Text) {
    exists t :: q == Quoted(t)
  }

  // A token is what its text says.
  ghost predicate Spelled(t: Token) {
    && (t.kind != IntegerToken ==> t.integer == 0 && !t.outOfRange)
    && match t.kind
       case IdentifierToken => IsPlainName(t.text)
       case IntegerToken => IsNumber(t)
       case StringToken => IsQuoted(t.text)
       case kind => IsKeyword(t.text, kind) || SymbolSpelled(kind, t.text)
  }

  lemma KeywordIsSpelled(t: Token)
    requires t == Plain(t.kind, t.text) && IsKeyword(t.text, t.kind)
    ensures Spelled(t) && t.kind != EndToken
  {
  }

  lemma SymbolIsSpelled(t: Token)
    requires t == Plain(t.kind, t.text) && SymbolSpelled(t.kind, t.text)
    ensures Spelled(t) && t.kind != EndToken
  {
  }

  // ------------------------------------------------------------ keywords

  lemma SameWordLower(a: Text, b: Text)
    requires forall i :: 0 <= i < |b| ==> 'a' <= b[i] <= 'z'
    ensures SameWord(a, b) <==> Lower(a) == b
  {
    if |a| == |b| {
      forall i | 0 <= i < |a| ensures SameLetter(a[i], b[i]) <==> Lower(a)[i] == b[i] { }
    }
  }

  // The keyword table holds these spellings and no others.
  lemma TableSpelled(k: nat)
    requires k < |KEYWORDS|
    ensures KeywordText(KEYWORDS[k].1) == Some(KEYWORDS[k].0)
    ensures KEYWORDS[k].1 != IdentifierToken
  {
  }

  lemma TextInTable(kind: TokenKind) returns (k: nat)
    ensures k < |KEYWORDS| && (KeywordText(kind).Some? ==> KEYWORDS[k].1 == kind)
  {
    k := match kind
      case SelectToken => 0 case InsertToken => 1 case IntoToken => 2 case ValuesToken => 3 case FromToken => 4
      case WhereToken => 5 case CreateToken => 6 case TableToken => 7 case DeleteToken => 8 case AndToken => 9
      case OrToken => 10 case NotToken => 11 case PrimaryToken => 12 case KeyToken => 13 case IntToken => 14
      case TextToken => 15 case _ => 16;
  }

  lemma KeywordLetters(kind: TokenKind)
    requires KeywordText(kind).Some?
    ensures forall i :: 0 <= i < |KeywordText(kind).value| ==> 'a' <= KeywordText(kind).value[i] <= 'z'
  {
  }

  lemma KeywordAt(word: Text, i: nat, k: nat)
    requires i <= k < |KEYWORDS| && Lower(word) == KEYWORDS[k].0
    requires forall j :: i <= j < k ==> KEYWORDS[j].0 != KEYWORDS[k].0
    ensures KeywordFrom(word, i) == KEYWORDS[k].1
    decreases k - i
  {
    if i < k { KeywordAt(word, i + 1, k); }
  }

  // No keyword of the table is spelled like another.
  lemma KeywordsDiffer(j: nat, k: nat)
    requires j < k < |KEYWORDS|
    ensures KEYWORDS[j].0 != KEYWORDS[k].0
  {
    assert |KEYWORDS[j].0| != |KEYWORDS[k].0| || KEYWORDS[j].0[0] != KEYWORDS[k].0[0];
  }

  lemma KeywordSpelled(word: Text, k: nat)
    requires k < |KEYWORDS| && Lower(word) == KEYWORDS[k].0
    ensures Keyword(word) == KEYWORDS[k].1
  {
    forall j | 0 <= j < k ensures KEYWORDS[j].0 != KEYWORDS[k].0 { KeywordsDiffer(j, k); }
    KeywordAt(word, 0, k);
  }

  lemma {:induction false} KeywordFound(word: Text, i: nat) returns (k: nat)
    requires i <= |KEYWORDS| && KeywordFrom(word, i) != IdentifierToken
    ensures k < |KEYWORDS| && Lower(word) == KEYWORDS[k].0 && KeywordFrom(word, i) == KEYWORDS[k].1
    decreases |KEYWORDS| - i
  {
    if Lower(word) == KEYWORDS[i].0 { k := i; } else { k := KeywordFound(word, i + 1); }
  }

  lemma {:induction false} NotFound(word: Text, i: nat, k: nat)
    requires i <= k < |KEYWORDS| && Lower(word) == KEYWORDS[k].0
    ensures KeywordFrom(word, i) != IdentifierToken
    decreases k - i
  {
    TableSpelled(i);
    if Lower(word) != KEYWORDS[i].0 { NotFound(word, i + 1, k); }
  }

  /** A word is a keyword exactly when it is spelled like it, case aside. */
  lemma KeywordExactly(word: Text, kind: TokenKind)
    requires KeywordText(kind).Some?
    ensures Keyword(word) == kind <==> IsKeyword(word, kind)
  {
    KeywordLetters(kind);
    SameWordLower(word, KeywordText(kind).value);
    var k := TextInTable(kind);
    TableSpelled(k);
    if IsKeyword(word, kind) { KeywordSpelled(word, k); }
    if Keyword(word) == kind {
      var j := KeywordFound(word, 0);
      TableSpelled(j);
    }
  }

  lemma NameExactly(word: Text)
    ensures Keyword(word) == IdentifierToken <==> forall kind :: !IsKeyword(word, kind)
  {
    if Keyword(word) == IdentifierToken {
      forall kind ensures !IsKeyword(word, kind) {
        if IsKeyword(word, kind) { KeywordExactly(word, kind); }
      }
    } else {
      var k := KeywordFound(word, 0);
      TableSpelled(k);
      KeywordExactly(word, KEYWORDS[k].1);
    }
  }

  // The kind of a word is a keyword's or a name's.
  lemma WordKind(word: Text)
    ensures Keyword(word) == IdentifierToken || KeywordText(Keyword(word)).Some?
  {
    if Keyword(word) != IdentifierToken {
      var k := KeywordFound(word, 0);
      TableSpelled(k);
    }
  }

  lemma WordSpelled(word: Text)
    requires WordShaped(word)
    ensures Spelled(Plain(Keyword(word), word))
  {
    WordKind(word);
    if Keyword(word) == IdentifierToken { NameExactly(word); } else { KeywordExactly(word, Keyword(word)); }
  }

  lemma PlainNameIsName(word: Text)
    ensures IsPlainName(word) <==> IsName(word)
  {
    NameExactly(word);
  }

  // ------------------------------------------------------------ blanks

  // Spaces, tabs, ends of lines, and comments from two dashes to the end of a line.
  ghost predicate Blank(b: Text)
    decreases |b|
  {
    || b == []
    || (b[0] in {' ', '\t', '\r', '\n'} && Blank(b[1..]))
    || exists n :: CommentLine(b, n) && Blank(b[n + 1..])
  }

  // A comment of n bytes, and the end of its line.
  predicate CommentLine(b: Text, n: int) {
    2 <= n < |b| && Comment(b[..n]) && b[n] == '\n'
  }

  predicate Comment(c: Text) {
    |c| >= 2 && c[0] == '-' && c[1] == '-' && forall i :: 0 <= i < |c| ==> c[i] != '\n'
  }

  lemma {:induction false} LineRunOf(c: Text, rest: Text)
    requires (forall i :: 0 <= i < |c| ==> c[i] != '\n') && |rest| > 0 && rest[0] == '\n'
    ensures LineRun(c + rest) == |c|
  {
    if |c| > 0 {
      assert (c + rest)[1..] == c[1..] + rest;
      LineRunOf(c[1..], rest);
    } else {
      assert c + rest == rest;
    }
  }

  lemma {:induction false} CommentSkipped(c: Text, rest: Text)
    requires Comment(c)
    ensures SkipBlank(c + (['\n'] + rest)) == SkipBlank(rest)
  {
    var s := c + (['\n'] + rest);
    assert s[2..] == c[2..] + (['\n'] + rest);
    LineRunOf(c[2..], ['\n'] + rest);
    SkipComment(s);
    assert s[|c|..] == ['\n'] + rest;
    SkipSpace(['\n'] + rest);
    assert (['\n'] + rest)[1..] == rest;
  }

  lemma {:induction false} BlankSkips(b: Text, rest: Text)
    requires Blank(b)
    ensures SkipBlank(b + rest) == SkipBlank(rest)
    decreases |b|
  {
    if b == [] {
      assert b + rest == rest;
    } else if b[0] in {' ', '\t', '\r', '\n'} && Blank(b[1..]) {
      BlankSkips(b[1..], rest);
      SpaceBefore(b, rest);
    } else {
      var n :| CommentLine(b, n) && Blank(b[n + 1..]);
      BlankSkips(b[n + 1..], rest);
      CommentBefore(b, n, rest);
    }
  }

  lemma {:induction false} SpaceBefore(b: Text, rest: Text)
    requires |b| > 0 && b[0] in {' ', '\t', '\r', '\n'}
    ensures SkipBlank(b + rest) == SkipBlank(b[1..] + rest)
  {
    assert (b + rest)[1..] == b[1..] + rest;
    SkipSpace(b + rest);
  }

  lemma {:induction false} CommentBefore(b: Text, n: int, rest: Text)
    requires CommentLine(b, n)
    ensures SkipBlank(b + rest) == SkipBlank(b[n + 1..] + rest)
  {
    assert b + rest == b[..n] + (['\n'] + (b[n + 1..] + rest));
    CommentSkipped(b[..n], b[n + 1..] + rest);
  }

  /** Blanks and comments before a token change nothing. */
  lemma BlankIgnored(b: Text, rest: Text)
    requires Blank(b)
    ensures Tokenize(b + rest) == Tokenize(rest)
  {
    BlankSkips(b, rest);
    assert NextToken(b + rest) == NextToken(rest);
  }

  // ------------------------------------------------------------ from spelling to token

  // The text after a token does not run on from it.
  predicate Apart(kind: TokenKind, rest: Text) {
    |rest| > 0 ==>
      match kind
      case StringToken => rest[0] != '\''
      case MinusToken => rest[0] != '-'
      case LessToken => rest[0] != '=' && rest[0] != '>'
      case GreaterToken => rest[0] != '='
      case IntegerToken => !IsLetter(rest[0]) && !('0' <= rest[0] <= '9')
      case kind => (kind == IdentifierToken || KeywordText(kind).Some?) ==>
                     !IsLetter(rest[0]) && !('0' <= rest[0] <= '9')
  }

  // A symbol's kind, from its first byte and the one after it, its own or not.
  lemma SymbolKindOf(kind: TokenKind, text: Text, second: Byte)
    requires SymbolSpelled(kind, text) && if |text| == 2 then second == text[1] else Apart(kind, [second])
    ensures SymbolKind(text[0], second) == (kind, |text|) && (text[0] as int) < 0x80
    ensures !IsNameStart(text[0]) && !IsDigit(text[0]) && text[0] != '\'' && !IsSpace(text[0])
  {
  }

  lemma SymbolLexes(t: Token, rest: Text)
    requires SymbolSpelled(t.kind, t.text) && t == Plain(t.kind, t.text) && Apart(t.kind, rest)
    ensures NextToken(t.text + rest) == (t, rest)
  {
    var s := t.text + rest;
    var second := if |s| > 1 then s[1] else '\0';
    SecondByte(t, rest, second);
    SymbolKindOf(t.kind, t.text, second);
    SkipNothing(s);
    assert s[..|t.text|] == t.text && s[|t.text|..] == rest;
    FrontOf(s);
  }

  lemma SecondByte(t: Token, rest: Text, second: Byte)
    requires SymbolSpelled(t.kind, t.text) && Apart(t.kind, rest)
    requires var s := t.text + rest; second == if |s| > 1 then s[1] else '\0'
    ensures if |t.text| == 2 then second == t.text[1] else Apart(t.kind, [second])
    ensures (t.text + rest)[0] == t.text[0]
    ensures |t.text + rest| > 1 ==> t.text[0] != '-' || (t.text + rest)[1] != '-'
  {
  }

  lemma WordNext(word: Text, rest: Text)
    requires WordShaped(word) && Breaks(rest)
    ensures NextToken(word + rest) == (Plain(Keyword(word), word), rest)
  {
    var s := word + rest;
    assert s[0] == word[0];
    SkipNothing(s);
    NameRunOf(word, rest);
    assert s[..|word|] == word && s[|word|..] == rest;
    assert NextToken(s) == Word(s);
  }

  lemma NumberSpelledNext(t: Token, rest: Text)
    requires t.kind == IntegerToken && IsNumber(t) && Breaks(rest)
    ensures NextToken(t.text + rest) == (t, rest)
  {
    NumberTokenOf(t.text, rest);
    ReadIsValue(t.text);
  }

  /** Whatever is spelled like a token, and not run on from, is read as that token. */
  lemma SpelledLexes(t: Token, rest: Text)
    requires Spelled(t) && Apart(t.kind, rest)
    ensures NextToken(t.text + rest) == (t, rest)
  {
    match t.kind
    case IdentifierToken =>
      PlainNameIsName(t.text);
      WordNext(t.text, rest);
    case IntegerToken => NumberSpelledNext(t, rest);
    case StringToken =>
      var content :| t.text == Quoted(content);
      QuotedLexes(content, rest);
    case _ => KeywordOrSymbolNext(t, rest);
  }

  lemma KeywordOrSymbolNext(t: Token, rest: Text)
    requires t == Plain(t.kind, t.text) && (IsKeyword(t.text, t.kind) || SymbolSpelled(t.kind, t.text))
    requires Apart(t.kind, rest)
    ensures NextToken(t.text + rest) == (t, rest)
  {
    if IsKeyword(t.text, t.kind) { KeywordNext(t, rest); } else { SymbolLexes(t, rest); }
  }

  lemma KeywordShaped(word: Text, kind: TokenKind)
    requires IsKeyword(word, kind)
    ensures WordShaped(word)
  {
    KeywordLetters(kind);
    assert forall i :: 0 <= i < |word| ==> SameLetter(word[i], KeywordText(kind).value[i]);
  }

  lemma KeywordNext(t: Token, rest: Text)
    requires IsKeyword(t.text, t.kind) && t == Plain(t.kind, t.text) && Breaks(rest)
    ensures NextToken(t.text + rest) == (t, rest)
  {
    KeywordShaped(t.text, t.kind);
    KeywordExactly(t.text, t.kind);
    WordNext(t.text, rest);
  }

  // ------------------------------------------------------------ from token to spelling

  // What was skipped before the first token.
  lemma {:induction false} SkippedIsBlank(s: Text) returns (b: Text)
    requires |SkipBlank(s)| > 0
    ensures Blank(b) && s == b + SkipBlank(s)
    decreases |s|
  {
    if IsSpace(s[0]) {
      SkipSpace(s);
      var more := SkippedIsBlank(s[1..]);
      b := [s[0]] + more;
      SpacePart(s, more, SkipBlank(s));
    } else if |s| > 1 && s[0] == '-' && s[1] == '-' {
      b := CommentIsBlank(s);
    } else {
      SkipNothing(s);
      b := [];
    }
  }

  lemma {:induction false} SpacePart(s: Text, more: Text, rest: Text)
    requires |s| > 0 && IsSpace(s[0]) && Blank(more) && s[1..] == more + rest
    ensures Blank([s[0]] + more) && s == [s[0]] + more + rest
  {
    SpaceThenBlank(s[0], more);
    assert s == [s[0]] + s[1..];
  }

  lemma {:induction false} SpaceThenBlank(c: Byte, more: Text)
    requires c in {' ', '\t', '\r', '\n'} && Blank(more)
    ensures Blank([c] + more)
  {
    assert ([c] + more)[1..] == more;
  }

  lemma {:induction false} LineEnds(s: Text)
    ensures forall i :: 0 <= i < LineRun(s) ==> s[i] != '\n'
    ensures LineRun(s) < |s| ==> s[LineRun(s)] == '\n'
  {
    if |s| > 0 && s[0] != '\n' { LineEnds(s[1..]); }
  }

  lemma {:induction false} CommentIsBlank(s: Text) returns (b: Text)
    requires |SkipBlank(s)| > 0 && |s| > 1 && s[0] == '-' && s[1] == '-'
    ensures Blank(b) && s == b + SkipBlank(s)
    decreases |s|, 0
  {
    var n := CommentEnds(s);
    var more := SkippedIsBlank(s[n + 1..]);
    b := s[..n] + (['\n'] + more);
    CommentPart(s, n, more, SkipBlank(s));
  }

  lemma {:induction false} CommentPart(s: Text, n: nat, more: Text, rest: Text)
    requires CommentLine(s, n) && Blank(more) && s[n + 1..] == more + rest
    ensures Blank(s[..n] + (['\n'] + more)) && s == s[..n] + (['\n'] + more) + rest
  {
    CommentThenBlank(s[..n], more);
    CutAt(s, n, more, rest);
  }

  lemma {:induction false} CutAt(s: Text, n: nat, a: Text, b: Text)
    requires n < |s| && s[n] == '\n' && s[n + 1..] == a + b
    ensures s == s[..n] + (['\n'] + a) + b
  {
    assert s == s[..n] + ([s[n]] + s[n + 1..]);
  }

  lemma {:induction false} CommentThenBlank(c: Text, more: Text)
    requires Comment(c) && Blank(more)
    ensures Blank(c + (['\n'] + more))
  {
    var b := c + (['\n'] + more);
    assert b[..|c|] == c && b[|c|] == '\n' && b[|c| + 1..] == more;
    assert CommentLine(b, |c|);
  }

  // A comment before a token ends with its line, and is skipped with it.
  lemma {:induction false} CommentEnds(s: Text) returns (n: nat)
    requires |SkipBlank(s)| > 0 && |s| > 1 && s[0] == '-' && s[1] == '-'
    ensures 2 <= n < |s| && Comment(s[..n]) && s[n] == '\n' && SkipBlank(s) == SkipBlank(s[n + 1..])
  {
    n := 2 + LineRun(s[2..]);
    SkipComment(s);
    LineEnds(s[2..]);
    assert forall i :: 2 <= i < n ==> s[i] == s[2..][i - 2];
    assert n < |s|;
    SkipSpace(s[n..]);
    assert s[n..][1..] == s[n + 1..];
  }

  // Cut at its first quote that is not doubled, a string's content is some text with its quotes doubled.
  lemma {:induction false} ContentIsDoubled(s: Text) returns (t: Text)
    requires StringRun(s) < |s|
    ensures s[..StringRun(s)] == Doubled(t) && s[StringRun(s)] == '\''
    ensures StringRun(s) + 1 < |s| ==> s[StringRun(s) + 1] != '\''
    decreases |s|
  {
    StringRunStep(s);
    var n := StringRun(s);
    if s[0] != '\'' {
      var more := ContentIsDoubled(s[1..]);
      t := [s[0]] + more;
      assert s[..n] == [s[0]] + s[1..][..n - 1];
      assert t[1..] == more;
    } else if |s| > 1 && s[1] == '\'' {
      var more := ContentIsDoubled(s[2..]);
      t := ['\''] + more;
      assert s[..n] == ['\'', '\''] + s[2..][..n - 2];
      assert t[1..] == more;
    } else {
      t := [];
    }
  }

  lemma StringSpelled(s: Text)
    requires |s| > 0 && s[0] == '\'' && StringTokenOf(s).0.kind == StringToken
    ensures var (t, rest) := StringTokenOf(s); Spelled(t) && s == t.text + rest && Apart(StringToken, rest)
  {
    var n := 1 + StringRun(s[1..]);
    var content := ContentIsDoubled(s[1..]);
    QuoteParts(s, n);
    assert s[..n + 1] == Quoted(content);
  }

  lemma QuoteParts(s: Text, n: nat)
    requires 1 <= n < |s| && s[0] == '\'' && s[n] == '\''
    ensures s[..n + 1] == ['\''] + s[1..][..n - 1] + ['\''] && s == s[..n + 1] + s[n + 1..]
  {
  }

  lemma {:induction false} SymbolKindSpelled(s: Text)
    requires |s| > 0 && SymbolToken(s).0.kind != ErrorToken
    ensures var (t, rest) := SymbolToken(s);
      SymbolSpelled(t.kind, t.text) && t == Plain(t.kind, t.text) && s == t.text + rest
  {
  }

  lemma SymbolApart(s: Text)
    requires |s| > 0 && SymbolToken(s).0.kind != ErrorToken && (|s| > 1 ==> s[0] != '-' || s[1] != '-')
    ensures Apart(SymbolToken(s).0.kind, SymbolToken(s).1)
  {
  }

  // A token stands at the front of the input, and is the whole of what is spelled there.
  ghost predicate Fronts(found: (Token, Text), s: Text) {
    Spelled(found.0) && s == found.0.text + found.1 && Apart(found.0.kind, found.1)
  }

  lemma WordFront(s: Text)
    requires |s| > 0 && IsNameStart(s[0])
    ensures Fronts(Word(s), s)
  {
    WordRun(s);
    WordSpelled(s[..NameRun(s)]);
    WordApart(s[..NameRun(s)], s[NameRun(s)..]);
  }

  lemma {:induction false} WordRun(s: Text)
    requires |s| > 0 && IsNameStart(s[0])
    ensures WordShaped(s[..NameRun(s)]) && Breaks(s[NameRun(s)..]) && s == s[..NameRun(s)] + s[NameRun(s)..]
  {
  }

  lemma WordApart(word: Text, rest: Text)
    requires Breaks(rest)
    ensures Apart(Keyword(word), rest)
  {
    WordKind(word);
  }

  lemma {:induction false} NumberFront(s: Text)
    requires |s| > 0 && IsDigit(s[0]) && NumberToken(s).0.kind != ErrorToken
    ensures Fronts(NumberToken(s), s)
  {
    ReadIsValue(s[..DigitRun(s)]);
  }

  lemma {:induction false} StringFront(s: Text)
    requires |s| > 0 && s[0] == '\'' && StringTokenOf(s).0.kind != ErrorToken
    ensures Fronts(StringTokenOf(s), s)
  {
    StringSpelled(s);
  }

  lemma SymbolFront(s: Text)
    requires |s| > 0 && SymbolToken(s).0.kind != ErrorToken && SkipBlank(s) == s
    ensures Fronts(SymbolToken(s), s)
  {
    if |s| > 1 && s[0] == '-' && s[1] == '-' { NotComment(s); }
    SymbolKindSpelled(s);
    SymbolApart(s);
  }

  lemma {:induction false} FrontOf(s: Text)
    requires |s| > 0 && SkipBlank(s) == s
    ensures NextToken(s) ==
      if IsNameStart(s[0]) then Word(s) else if IsDigit(s[0]) then NumberToken(s)
      else if s[0] == '\'' then StringTokenOf(s) else SymbolToken(s)
  {
  }

  lemma FrontSpelled(s: Text)
    requires |s| > 0 && SkipBlank(s) == s && NextToken(s).0.kind != ErrorToken
    ensures Fronts(NextToken(s), s)
  {
    FrontOf(s);
    if IsNameStart(s[0]) {
      WordFront(s);
    } else if IsDigit(s[0]) {
      NumberFront(s);
    } else if s[0] == '\'' {
      StringFront(s);
    } else {
      SymbolFront(s);
    }
  }

  // Skipping a comment gets somewhere.
  lemma {:induction false} NotComment(s: Text)
    requires |s| > 1 && s[0] == '-' && s[1] == '-'
    ensures |SkipBlank(s)| < |s|
  {
    SkipComment(s);
  }

  lemma {:induction false} SkippedOnce(s: Text)
    ensures SkipBlank(SkipBlank(s)) == SkipBlank(s)
    decreases |s|
  {
    if |s| > 0 && IsSpace(s[0]) {
      SkippedOnce(s[1..]);
    } else if |s| > 1 && s[0] == '-' && s[1] == '-' {
      SkippedOnce(s[2 + LineRun(s[2..])..]);
    }
  }

  /** Every token that is no error is spelled as its kind is, after nothing but blanks and comments, and is the whole
      of what is spelled there. */
  lemma TokensSpelled(s: Text) returns (b: Text)
    requires NextToken(s).0.kind !in {EndToken, ErrorToken}
    ensures var (t, rest) := NextToken(s);
      Blank(b) && s == b + (t.text + rest) && Spelled(t) && Apart(t.kind, rest)
  {
    var front := SkipBlank(s);
    SkippedOnce(s);
    assert NextToken(front) == NextToken(s);
    b := SkippedIsBlank(s);
    FrontSpelled(front);
  }

  // ------------------------------------------------------------ text made of tokens

  // The input begins with these tokens, and goes on with the rest.
  ghost predicate Reads(s: Text, ts: seq<Token>, rest: Text) {
    forall u {:trigger Unread(u)} :: Unread(u) && u == s ==> Tokenize(u) == ts + Tokenize(rest)
  }

  lemma ReadsNone(s: Text)
    ensures Reads(s, [], s)
  {
  }

  lemma ReadsThen(s: Text, a: seq<Token>, middle: Text, b: seq<Token>, rest: Text)
    requires Reads(s, a, middle) && Reads(middle, b, rest)
    ensures Reads(s, a + b, rest)
  {
    assert Unread(s) && Unread(middle);
    Grouped(a, b, Tokenize(rest));
  }

  lemma Grouped<T>(a: seq<T>, b: seq<T>, c: seq<T>)
    ensures a + b + c == a + (b + c)
  {
  }

  lemma SpaceThen(s: Text, ts: seq<Token>, rest: Text)
    requires Reads(s, ts, rest)
    ensures Reads([' '] + s, ts, rest)
  {
    assert Unread(s);
    SpaceSkipped(s);
  }

  lemma EndOfText(s: Text, ts: seq<Token>)
    requires Reads(s, ts, [])
    ensures Tokenize(s) == ts + [END]
  {
    assert Unread(s);
  }

  const OPEN: Token := Plain(LeftParenToken, "(")
  const CLOSE: Token := Plain(RightParenToken, ")")
  const COMMA: Token := Plain(CommaToken, ",")

  // A token, spelled out, before text that does not run on from it.
  lemma TokenReads(t: Token, rest: Text)
    requires Spelled(t) && t.kind != EndToken && Apart(t.kind, rest)
    ensures Reads(t.text + rest, [t], rest)
  {
    SpelledLexes(t, rest);
    TokenizeStep(t.text + rest, t, rest);
  }
}
