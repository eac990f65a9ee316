/** What the tokenizer makes of words, numbers and strings written out in text. */
module Lexing {
  import opened Pages
  import opened Tokens
  import opened Parsing

  // ------------------------------------------------------------ words

  predicate WordShaped(w: Text) {
    |w| > 0 && IsNameStart(w[0]) && forall i :: 0 <= i < |w| ==> IsNameChar(w[i])
  }

  // A name a table or column can have: any word but a keyword.
  predicate IsName(w: Text) {
    WordShaped(w) && Keyword(w) == IdentifierToken
  }

  // Text after which a word or a number has ended.
  predicate Breaks(rest: Text) {
    |rest| == 0 || !IsNameChar(rest[0])
  }

  lemma {:induction false} NameRunOf(w: Text, rest: Text)
    requires forall i :: 0 <= i < |w| ==> IsNameChar(w[i])
    requires Breaks(rest)
    ensures NameRun(w + rest) == |w|
  {
    if |w| > 0 {
      assert (w + rest)[1..] == w[1..] + rest;
      NameRunOf(w[1..], rest);
    }
  }

  lemma TokenizeStep(s: Text, t: Token, rest: Text)
    requires NextToken(s) == (t, rest) && t.kind != EndToken
    ensures Tokenize(s) == [t] + Tokenize(rest)
  {
  }

  // A word is read whole, and is a keyword or a name.
  lemma WordLexes(w: Text, rest: Text)
    requires WordShaped(w) && Breaks(rest)
    ensures Tokenize(w + rest) == [Plain(Keyword(w), w)] + Tokenize(rest)
  {
    var s := w + rest;
    assert s[0] == w[0];
    assert SkipBlank(s) == s;
    NameRunOf(w, rest);
    assert s[..|w|] == w && s[|w|..] == rest;
    KeywordIsName(w, 0);
    assert NextToken(s) == Word(s);
    TokenizeStep(s, Plain(Keyword(w), w), rest);
  }

  lemma SpaceSkipped(rest: Text)
    ensures Tokenize([' '] + rest) == Tokenize(rest)
  {
    assert ([' '] + rest)[1..] == rest;
    assert SkipBlank([' '] + rest) == SkipBlank(rest);
    assert NextToken([' '] + rest) == NextToken(rest);
  }

  function MarkOf(c: Byte): TokenKind
    requires c in {'(', ')', ','}
  {
    if c == '(' then LeftParenToken else if c == ')' then RightParenToken else CommaToken
  }

  lemma MarkLexes(c: Byte, rest: Text)
    requires c in {'(', ')', ','}
    ensures Tokenize([c] + rest) == [Plain(MarkOf(c), [c])] + Tokenize(rest)
  {
    var s := [c] + rest;
    assert SkipBlank(s) == s;
    assert s[..1] == [c] && s[1..] == rest;
    assert NextToken(s) == SymbolToken(s);
    TokenizeStep(s, Plain(MarkOf(c), [c]), rest);
  }

  // ------------------------------------------------------------ numbers

  predicate AllDigits(d: Text) {
    forall i :: 0 <= i < |d| ==> IsDigit(d[i])
  }

  // A number in decimal, with no leading zero.
  function Decimal(n: nat): (d: Text)
    ensures |d| > 0 && AllDigits(d)
  {
    if n < 10 then [Digit(n)] else Decimal(n / 10) + [Digit(n % 10)]
  }

  function Digit(n: nat): (c: Byte)
    requires n < 10
    ensures IsDigit(c) && DigitOf(c) == n
  {
    ('0' as int + n) as char
  }

  lemma {:induction false} DecimalValue(n: nat)
    ensures Value(Decimal(n)) == n
  {
    if n < 10 {
      assert Decimal(n)[..0] == [];
    } else {
      DecimalValue(n / 10);
      assert Decimal(n)[..|Decimal(n)| - 1] == Decimal(n / 10);
    }
  }

  lemma {:induction false} DigitRunOf(d: Text, rest: Text)
    requires AllDigits(d) && (|rest| == 0 || !IsDigit(rest[0]))
    ensures DigitRun(d + rest) == |d|
  {
    if |d| > 0 {
      assert (d + rest)[1..] == d[1..] + rest;
      DigitRunOf(d[1..], rest);
    }
  }

  /** Digits of any length, not running into a name, are one token: out of range
      exactly when the number they spell exceeds INT64_MAX, and otherwise that number. */
  lemma DigitsLex(d: Text, rest: Text)
    requires |d| > 0 && AllDigits(d) && Breaks(rest)
    ensures var (t, after) := NextToken(d + rest);
      t.kind == IntegerToken && t.text == d && after == rest
      && (t.outOfRange <==> Value(d) > INT64_MAX) && (!t.outOfRange ==> t.integer == Value(d))
  {
    NumberTokenOf(d, rest);
    ReadIsValue(d);
  }

  lemma NumberNext(d: Text, rest: Text)
    requires |d| > 0 && AllDigits(d)
    ensures NextToken(d + rest) == NumberToken(d + rest)
  {
    var s := d + rest;
    assert s[0] == d[0] && IsDigit(d[0]);
    assert SkipBlank(s) == s;
  }

  lemma NumberTokenOf(d: Text, rest: Text)
    requires |d| > 0 && AllDigits(d) && Breaks(rest)
    ensures NextToken(d + rest) == (Token(IntegerToken, d, Read(d).0, Read(d).1), rest)
  {
    var s := d + rest;
    NumberNext(d, rest);
    DigitRunOf(d, rest);
    var n := |d|;
    assert s[..n] == d && s[n..] == rest;
    assert n < |s| ==> s[n] == rest[0];
  }

  // Digits that run into a name are no token at all.
  lemma DigitsIntoName(d: Text, rest: Text)
    requires |d| > 0 && AllDigits(d) && |rest| > 0 && IsNameStart(rest[0])
    ensures NextToken(d + rest).0.kind == ErrorToken
  {
    var s := d + rest;
    assert s[0] == d[0];
    assert SkipBlank(s) == s;
    DigitRunOf(d, rest);
    assert s[|d|] == rest[0];
    assert NextToken(s) == NumberToken(s);
  }

  lemma NumberLexes(n: nat, rest: Text)
    requires n <= INT64_MAX && Breaks(rest)
    ensures Tokenize(Decimal(n) + rest) == [Token(IntegerToken, Decimal(n), n, false)] + Tokenize(rest)
  {
    DigitsLex(Decimal(n), rest);
    DecimalValue(n);
    TokenizeStep(Decimal(n) + rest, Token(IntegerToken, Decimal(n), n, false), rest);
  }

  // ------------------------------------------------------------ strings

  // Text with each quote written twice.
  function Doubled(t: Text): Text {
    if |t| == 0 then []
    else if t[0] == '\'' then ['\'', '\''] + Doubled(t[1..])
    else [t[0]] + Doubled(t[1..])
  }

  function Quoted(t: Text): Text {
    ['\''] + Doubled(t) + ['\'']
  }

  lemma {:induction false} StringRunOf(t: Text, rest: Text)
    requires |rest| > 0 && rest[0] == '\'' && (|rest| == 1 || rest[1] != '\'')
    ensures StringRun(Doubled(t) + rest) == |Doubled(t)|
  {
    var s := Doubled(t) + rest;
    if |t| == 0 {
      assert s == rest;
    } else {
      StringRunOf(t[1..], rest);
      if t[0] == '\'' {
        assert s[2..] == Doubled(t[1..]) + rest;
        assert s[0] == '\'' && s[1] == '\'';
      } else {
        assert s[1..] == Doubled(t[1..]) + rest;
        assert s[0] == t[0];
      }
    }
  }

  lemma {:induction false} UnquotedDoubled(t: Text)
    ensures Unquoted(Doubled(t)) == t
  {
    if |t| > 0 {
      UnquotedDoubled(t[1..]);
      var d := Doubled(t);
      if t[0] == '\'' {
        assert d[2..] == Doubled(t[1..]);
      } else {
        assert d[1..] == Doubled(t[1..]);
      }
    }
  }

  lemma QuotedContent(t: Text)
    ensures var q := Quoted(t); |q| >= 2 && q[1..|q| - 1] == Doubled(t)
    ensures LiteralOf(false, Plain(StringToken, Quoted(t))) == StringLiteral(t)
  {
    var q := Quoted(t);
    assert q[1..|q| - 1] == Doubled(t);
    UnquotedDoubled(t);
  }

  lemma StringNext(s: Text)
    requires |s| > 0 && s[0] == '\''
    ensures NextToken(s) == StringTokenOf(s)
  {
    assert SkipBlank(s) == s;
  }

  /** Any text, quoted by doubling its quotes, is read back as one string token whose content is that text. */
  lemma QuotedLexes(t: Text, rest: Text)
    requires |rest| == 0 || rest[0] != '\''
    ensures NextToken(Quoted(t) + rest) == (Plain(StringToken, Quoted(t)), rest)
    ensures LiteralOf(false, Plain(StringToken, Quoted(t))) == StringLiteral(t)
  {
    var s, q := Quoted(t) + rest, Quoted(t);
    StringNext(s);
    StringRunOf(t, ['\''] + rest);
    QuotedParts(Doubled(t), rest);
    QuotedContent(t);
  }

  lemma QuotedParts(d: Text, rest: Text)
    ensures var q := ['\''] + d + ['\'']; var s := q + rest;
      s[0] == '\'' && s[1..] == d + (['\''] + rest) && s[..|q|] == q && s[|q|..] == rest
  {
  }

  // ------------------------------------------------------------ what tokens can be

  // A name's text is a name; an integer's value, if in range, is not negative and fits 64 bits.
  predicate TokenFits(t: Token) {
    && (t.kind == IdentifierToken ==> IsName(t.text))
    && (t.kind == IntegerToken && !t.outOfRange ==> 0 <= t.integer <= INT64_MAX)
  }

  lemma WordFits(s: Text)
    requires |s| > 0 && IsNameStart(s[0])
    ensures TokenFits(Word(s).0)
  {
    KeywordKind(s[..NameRun(s)], 0);
  }

  lemma KeywordKind(w: Text, i: nat)
    requires i <= |KEYWORDS|
    ensures KeywordFrom(w, i) !in {IntegerToken, EndToken}
    decreases |KEYWORDS| - i
  {
  }

  lemma NextFits(s: Text)
    ensures TokenFits(NextToken(s).0)
  {
    var t := SkipBlank(s);
    if |t| == 0 {
    } else if IsNameStart(t[0]) {
      WordFits(t);
    } else if IsDigit(t[0]) {
      ReadIsValue(t[..DigitRun(t)]);
    }
  }

  lemma {:induction false} TokensFit(s: Text)
    ensures forall i :: 0 <= i < |Tokenize(s)| ==> TokenFits(Tokenize(s)[i])
    decreases |s|
  {
    var (t, rest) := NextToken(s);
    NextFits(s);
    if t.kind != EndToken {
      TokensFit(rest);
      TokenizeStep(s, t, rest);
    }
  }
}
