/** A glob written as a regular expression reads back as one that matches just what the glob denotes. */
module GlobRendering {
  import opened GlobAst
  import opened RegexText

  // ----- the expression that is meant -----

  function Chars(text: string): Regexes {
    if text == "" then [] else [Char(text[0])] + Chars(text[1..])
  }

  /** Characters of a class, `a-z` as one range. */
  function RangesOf(characters: string): seq<Range> {
    if characters == "" then []
    else if |characters| >= 3 && characters[1] == '-' then [Range(characters[0], characters[2])] + RangesOf(characters[3..])
    else [Range(characters[0], characters[0])] + RangesOf(characters[1..])
  }

  const NO_SLASH: Regex := Class(true, [Range('/', '/')])

  function TranslateNode(n: Node): Regexes
    decreases n
  {
    match n
    case Wildcard(AnyPath) => [Star(AnyChar)]
    case Wildcard(AnyName) => [Star(NO_SLASH)]
    case Wildcard(AnyLetter) => [NO_SLASH]
    case Literal(text) => Chars(text)
    case Group(negated, characters) => [Class(negated, RangesOf(characters))]
    case Alternation(alternatives) => [Choice(TranslateAlternatives(alternatives))]
  }

  function Translate(e: Expression): Regexes
    decreases e
  {
    if e == [] then [] else TranslateNode(e[0]) + Translate(e[1..])
  }

  function TranslateAlternatives(alternatives: seq<Branch>): (r: seq<Pieces>)
    ensures |r| == |alternatives|
    decreases alternatives
  {
    if alternatives == [] then []
    else [Pieces(Translate(alternatives[0].expression))] + TranslateAlternatives(alternatives[1..])
  }

  // ----- it matches what the glob denotes -----

  lemma {:induction false} MatchesJoined(a: Regexes, b: Regexes, s: string)
    ensures Matches(a + b, s) <==> exists k :: 0 <= k <= |s| && Matches(a, s[..k]) && Matches(b, s[k..])
    decreases a
  {
    hide MatchesOne;
    if a == [] {
      assert a + b == b && s[..0] == "" && s[0..] == s;
      assert forall k :: 0 <= k <= |s| && Matches(a, s[..k]) ==> s[..k] == "";
    } else {
      assert (a + b)[0] == a[0] && (a + b)[1..] == a[1..] + b;
      if Matches(a + b, s) {
        var j :| 0 <= j <= |s| && MatchesOne(a[0], s[..j]) && Matches(a[1..] + b, s[j..]);
        MatchesJoined(a[1..], b, s[j..]);
        var k :| 0 <= k <= |s[j..]| && Matches(a[1..], s[j..][..k]) && Matches(b, s[j..][k..]);
        var t := s[..j + k];
        assert t[..j] == s[..j] && t[j..] == s[j..][..k] && s[j + k..] == s[j..][k..];
        assert Matches(a, t);
      }
      if k :| 0 <= k <= |s| && Matches(a, s[..k]) && Matches(b, s[k..]) {
        var t := s[..k];
        var j :| 0 <= j <= |t| && MatchesOne(a[0], t[..j]) && Matches(a[1..], t[j..]);
        var u := s[j..];
        assert t[..j] == s[..j] && t[j..] == u[..k - j] && s[k..] == u[k - j..];
        MatchesJoined(a[1..], b, u);
      }
    }
  }

  lemma MatchesSingle(r: Regex, s: string)
    ensures Matches([r], s) <==> MatchesOne(r, s)
  {
    hide MatchesOne;
    assert s[..|s|] == s && s[|s|..] == "";
    assert [r][1..] == [];
    if Matches([r], s) {
      var k :| 0 <= k <= |s| && MatchesOne(r, s[..k]) && Matches([], s[k..]);
      assert s[..k] == s;
    }
  }

  lemma CharFirst(c: char, more: Regexes, s: string)
    ensures Matches([Char(c)] + more, s) <==> s != "" && s[0] == c && Matches(more, s[1..])
  {
    assert ([Char(c)] + more)[1..] == more;
    if Matches([Char(c)] + more, s) {
      var k :| 0 <= k <= |s| && MatchesOne(Char(c), s[..k]) && Matches(more, s[k..]);
      assert k == 1 && s[0] == s[..k][0];
    }
    if s != "" && s[0] == c { assert s[..1] == [c]; }
  }

  lemma {:induction false} CharsMatchText(text: string, s: string)
    ensures Matches(Chars(text), s) <==> s == text
  {
    if text != "" {
      CharFirst(text[0], Chars(text[1..]), s);
      if s != "" {
        CharsMatchText(text[1..], s[1..]);
        assert s == [s[0]] + s[1..];
      }
      hide Matches;
      assert text == [text[0]] + text[1..];
    }
  }

  lemma {:induction false} RangesAreClass(characters: string, c: char)
    ensures InRanges(RangesOf(characters), c) <==> InClass(characters, c)
  {
    if characters != "" {
      var ranges := RangesOf(characters);
      var rest := if |characters| >= 3 && characters[1] == '-' then characters[3..] else characters[1..];
      RangesAreClass(rest, c);
      assert ranges[1..] == RangesOf(rest);
      FirstOrRest(ranges, c);
    }
  }

  lemma FirstOrRest(ranges: seq<Range>, c: char)
    requires ranges != []
    ensures InRanges(ranges, c) <==> ranges[0].low <= c <= ranges[0].high || InRanges(ranges[1..], c)
  {
    if i :| 0 < i < |ranges| && ranges[i].low <= c <= ranges[i].high { assert ranges[1..][i - 1] == ranges[i]; }
    if i :| 0 <= i < |ranges[1..]| && ranges[1..][i].low <= c <= ranges[1..][i].high { assert ranges[i + 1] == ranges[1..][i]; }
  }

  lemma NoSlashMatches(s: string)
    ensures MatchesOne(NO_SLASH, s) <==> |s| == 1 && s[0] != '/'
  {
    if |s| == 1 { FirstOrRest([Range('/', '/')], s[0]); }
  }

  lemma {:induction false} StarOfAnything(s: string)
    ensures MatchesOne(Star(AnyChar), s)
  {
    if s != "" {
      StarOfAnything(s[1..]);
      assert MatchesOne(AnyChar, s[..1]);
    }
  }

  lemma {:induction false} StarOfNoSlash(s: string)
    ensures MatchesOne(Star(NO_SLASH), s) <==> forall i :: 0 <= i < |s| ==> s[i] != '/'
  {
    if s != "" {
      StarOfNoSlash(s[1..]);
      NoSlashMatches(s[..1]);
      if MatchesOne(Star(NO_SLASH), s) {
        var k :| 0 < k <= |s| && MatchesOne(NO_SLASH, s[..k]) && MatchesOne(Star(NO_SLASH), s[k..]);
        NoSlashMatches(s[..k]);
        assert k == 1 && s[0] == s[..k][0];
        assert forall i :: 0 < i < |s| ==> s[i] == s[1..][i - 1];
      }
      if forall i :: 0 <= i < |s| ==> s[i] != '/' { assert MatchesOne(NO_SLASH, s[..1]) && MatchesOne(Star(NO_SLASH), s[1..]); }
    }
  }

  lemma {:induction false} NodeIsTranslated(n: Node, s: string)
    ensures Matches(TranslateNode(n), s) <==> DenotesNode(n, s)
    decreases n
  {
    match n
    case Wildcard(jolly) =>
      MatchesSingle(Star(AnyChar), s);
      MatchesSingle(Star(NO_SLASH), s);
      MatchesSingle(NO_SLASH, s);
      StarOfAnything(s);
      StarOfNoSlash(s);
      NoSlashMatches(s);
    case Literal(text) => CharsMatchText(text, s);
    case Group(negated, characters) =>
      MatchesSingle(Class(negated, RangesOf(characters)), s);
      if |s| == 1 { RangesAreClass(characters, s[0]); }
    case Alternation(alternatives) =>
      MatchesSingle(Choice(TranslateAlternatives(alternatives)), s);
      forall i | 0 <= i < |alternatives|
        ensures Matches(TranslateAlternatives(alternatives)[i].sequence, s) <==> Denotes(alternatives[i].expression, s)
      {
        AlternativeAt(alternatives, i);
        IsTranslated(alternatives[i].expression, s);
      }
  }

  lemma {:induction false} AlternativeAt(alternatives: seq<Branch>, i: nat)
    requires i < |alternatives|
    ensures TranslateAlternatives(alternatives)[i].sequence == Translate(alternatives[i].expression)
    decreases alternatives
  {
    if i > 0 { AlternativeAt(alternatives[1..], i - 1); }
  }

  /** The translation matches exactly what the glob denotes. */
  lemma {:induction false} IsTranslated(e: Expression, s: string)
    ensures Matches(Translate(e), s) <==> Denotes(e, s)
    decreases e
  {
    hide TranslateNode;
    hide DenotesNode;
    if e != [] {
      MatchesJoined(TranslateNode(e[0]), Translate(e[1..]), s);
      forall k | 0 <= k <= |s|
        ensures Matches(TranslateNode(e[0]), s[..k]) <==> DenotesNode(e[0], s[..k])
        ensures Matches(Translate(e[1..]), s[k..]) <==> Denotes(e[1..], s[k..])
      {
        NodeIsTranslated(e[0], s[..k]);
        IsTranslated(e[1..], s[k..]);
      }
    }
  }

  // ----- it reads back -----

  function TokenOf(c: char): Token { if IsSpecial(c) then Escaped(c) else Plain(c) }

  function TextTokens(text: string): (toks: Tokens)
    ensures |toks| == |text| && forall k :: 0 <= k < |text| ==> toks[k] == TokenOf(text[k])
  {
    if text == "" then [] else [TokenOf(text[0])] + TextTokens(text[1..])
  }

  function PlainTokens(text: string): Tokens { if text == "" then [] else [Plain(text[0])] + PlainTokens(text[1..]) }

  function NodeTokens(n: Node): Tokens
    decreases n
  {
    match n
    case Wildcard(jolly) => PlainTokens(RenderWildcard(jolly))
    case Alternation(alternatives) => PlainTokens("(?:") + AlternativeTokens(alternatives) + [Plain(')')]
    case Group(negated, characters) => PlainTokens(if negated then "[^" else "[") + TextTokens(characters) + [Plain(']')]
    case Literal(text) => TextTokens(text)
  }

  function ExpressionTokens(e: Expression): Tokens
    decreases e
  {
    if e == [] then [] else NodeTokens(e[0]) + ExpressionTokens(e[1..])
  }

  function AlternativeTokens(alternatives: seq<Branch>): Tokens
    decreases alternatives
  {
    if alternatives == [] then []
    else if |alternatives| == 1 then ExpressionTokens(alternatives[0].expression)
    else ExpressionTokens(alternatives[0].expression) + [Plain('|')] + AlternativeTokens(alternatives[1..])
  }

  lemma LexOne(c: char, rest: string)
    requires c != '\\'
    ensures Lex([c] + rest) == [Plain(c)] + Lex(rest)
  {
    assert ([c] + rest)[1..] == rest;
  }

  predicate NoBackslash(text: string) { forall k :: 0 <= k < |text| ==> text[k] != '\\' }

  lemma PlainFirst(text: string, rest: string)
    requires text != "" && NoBackslash(text)
    ensures NoBackslash(text[1..]) && text[0] != '\\' && text + rest == [text[0]] + (text[1..] + rest)
    ensures PlainTokens(text) == [Plain(text[0])] + PlainTokens(text[1..])
  {}

  lemma {:induction false} LexPlain(text: string, rest: string)
    requires NoBackslash(text)
    ensures Lex(text + rest) == PlainTokens(text) + Lex(rest)
  {
    hide NoBackslash;
    hide Lex;
    if text == "" {
      assert text + rest == rest;
    } else {
      hide PlainTokens;
      PlainFirst(text, rest);
      LexPlain(text[1..], rest);
      LexOne(text[0], text[1..] + rest);
    }
  }

  lemma {:induction false} LexEscaped(text: string, rest: string)
    ensures Lex(EscapedText(text) + rest) == TextTokens(text) + Lex(rest)
  {
    if text == "" {
      assert EscapedText(text) + rest == rest;
    } else {
      hide Lex;
      hide EscapedChar;
      hide TokenOf;
      var more := EscapedText(text[1..]) + rest;
      LexEscaped(text[1..], rest);
      assert EscapedText(text) + rest == EscapedChar(text[0]) + more;
      LexChar(text[0], more);
    }
  }

  lemma LexChar(c: char, more: string)
    ensures Lex(EscapedChar(c) + more) == [TokenOf(c)] + Lex(more)
  {
    if IsSpecial(c) {
      assert (EscapedChar(c) + more)[2..] == more;
    } else {
      LexOne(c, more);
    }
  }

  lemma WildcardIsPlain(jolly: Jolly)
    ensures NoBackslash(RenderWildcard(jolly))
  {}

  lemma {:induction false} LexNode(n: Node, rest: string)
    ensures Lex(RenderNode(n) + rest) == NodeTokens(n) + Lex(rest)
    decreases n
  {
    hide Lex;
    hide TextTokens;
    hide EscapedText;
    hide RenderWildcard;
    match n
    case Wildcard(jolly) =>
      WildcardIsPlain(jolly);
      LexPlain(RenderWildcard(jolly), rest);
    case Literal(text) => LexEscaped(text, rest);
    case Group(negated, characters) =>
      var open := if negated then "[^" else "[";
      assert RenderNode(n) + rest == open + (EscapedText(characters) + ("]" + rest));
      LexPlain(open, EscapedText(characters) + ("]" + rest));
      LexEscaped(characters, "]" + rest);
      LexOne(']', rest);
    case Alternation(alternatives) =>
      assert RenderNode(n) + rest == "(?:" + (RenderAlternatives(alternatives) + (")" + rest));
      LexPlain("(?:", RenderAlternatives(alternatives) + (")" + rest));
      LexAlternatives(alternatives, ")" + rest);
      LexOne(')', rest);
  }

  lemma {:induction false} LexExpression(e: Expression, rest: string)
    ensures Lex(Render(e) + rest) == ExpressionTokens(e) + Lex(rest)
    decreases e
  {
    hide Lex;
    if e == [] {
      assert Render(e) + rest == rest;
    } else {
      assert Render(e) + rest == RenderNode(e[0]) + (Render(e[1..]) + rest);
      LexNode(e[0], Render(e[1..]) + rest);
      LexExpression(e[1..], rest);
    }
  }

  lemma {:induction false} LexAlternatives(alternatives: seq<Branch>, rest: string)
    ensures Lex(RenderAlternatives(alternatives) + rest) == AlternativeTokens(alternatives) + Lex(rest)
    decreases alternatives
  {
    hide Lex;
    hide Render;
    hide ExpressionTokens;
    if alternatives == [] {
      assert RenderAlternatives(alternatives) + rest == rest;
    } else if |alternatives| == 1 {
      LexExpression(alternatives[0].expression, rest);
    } else {
      var more := RenderAlternatives(alternatives[1..]) + rest;
      FirstAlternative(alternatives, rest, Lex(rest));
      hide RenderAlternatives;
      hide AlternativeTokens;
      LexExpression(alternatives[0].expression, "|" + more);
      LexOne('|', more);
      LexAlternatives(alternatives[1..], rest);
    }
  }

  lemma JoinRight<T>(a: seq<T>, b: seq<T>, c: seq<T>, d: seq<T>)
    ensures a + b + c + d == a + (b + (c + d))
  {}

  lemma FirstAlternative(alternatives: seq<Branch>, rest: string, toks: Tokens)
    requires |alternatives| > 1
    ensures RenderAlternatives(alternatives) + rest
         == Render(alternatives[0].expression) + ("|" + (RenderAlternatives(alternatives[1..]) + rest))
    ensures AlternativeTokens(alternatives) + toks
         == ExpressionTokens(alternatives[0].expression) + ([Plain('|')] + (AlternativeTokens(alternatives[1..]) + toks))
  {
    var e := alternatives[0].expression;
    assert RenderAlternatives(alternatives) == Render(e) + "|" + RenderAlternatives(alternatives[1..]);
    assert AlternativeTokens(alternatives) == ExpressionTokens(e) + [Plain('|')] + AlternativeTokens(alternatives[1..]);
    hide *;
    JoinRight(Render(e), "|", RenderAlternatives(alternatives[1..]), rest);
    JoinRight(ExpressionTokens(e), [Plain('|')], AlternativeTokens(alternatives[1..]), toks);
  }

  function Prepended(pieces: Regexes, p: Parsed<Regexes>): Parsed<Regexes> {
    if p.Failed? then Failed else Parsed(pieces + p.value, p.rest)
  }

  lemma PrependedTwice(a: Regexes, b: Regexes, p: Parsed<Regexes>)
    ensures Prepended(a, Prepended(b, p)) == Prepended(a + b, p)
  {
    if p.Parsed? { assert a + (b + p.value) == a + b + p.value; }
  }

  lemma PrependedNothing(p: Parsed<Regexes>)
    ensures Prepended([], p) == p
  {
    if p.Parsed? { assert [] + p.value == p.value; }
  }

  lemma ReadSingle(toks: Tokens, r: Regex, more: Tokens)
    requires ReadAtom(toks) == Parsed(r, more) && !Starts(more, '*') && !EndsBranch(toks)
    ensures ReadBranch(toks) == Prepended([r], ReadBranch(more))
  {
    hide ReadAtom;
  }

  lemma NothingRead(toks: Tokens)
    requires ReadAtom(toks) == Failed && !EndsBranch(toks)
    ensures ReadBranch(toks) == Failed
  {
    hide ReadAtom;
  }

  lemma ReadRepeated(toks: Tokens, r: Regex, more: Tokens)
    requires ReadAtom(toks) == Parsed(r, [Plain('*')] + more) && !EndsBranch(toks)
    ensures ReadBranch(toks) == Prepended([Star(r)], ReadBranch(more))
  {
    hide ReadAtom;
    assert ([Plain('*')] + more)[1..] == more;
  }

  lemma ReadToken(c: char, more: Tokens)
    ensures ReadAtom([TokenOf(c)] + more) == Parsed(Char(c), more) && !EndsBranch([TokenOf(c)] + more)
    ensures !Starts([TokenOf(c)] + more, '*') && !Starts([TokenOf(c)] + more, '^')
  {
    assert ([TokenOf(c)] + more)[1..] == more;
  }

  lemma {:induction false} ReadText(text: string, more: Tokens)
    requires !Starts(more, '*')
    ensures ReadBranch(TextTokens(text) + more) == Prepended(Chars(text), ReadBranch(more))
    ensures !Starts(TextTokens(text) + more, '*')
  {
    hide ReadBranch;
    hide ReadAtom;
    hide EndsBranch;
    hide TokenOf;
    if text == "" {
      assert TextTokens(text) + more == more;
      PrependedNothing(ReadBranch(more));
    } else {
      var rest := TextTokens(text[1..]) + more;
      ReadText(text[1..], more);
      assert TextTokens(text) + more == [TokenOf(text[0])] + rest;
      ReadToken(text[0], rest);
      ReadSingle([TokenOf(text[0])] + rest, Char(text[0]), rest);
      PrependedTwice([Char(text[0])], Chars(text[1..]), ReadBranch(more));
    }
  }

  /** One more range in front, if what follows can be read. */
  function RangeBefore(low: char, high: char, p: Parsed<seq<Range>>): Parsed<seq<Range>> {
    if p.Failed? then Failed else Parsed([Range(low, high)] + p.value, p.rest)
  }

  lemma ReadRange(low: char, high: char, toks: Tokens, more: Tokens, first: bool)
    requires toks == [TokenOf(low), Plain('-'), TokenOf(high)] + more && (first || low != '-')
    ensures ReadRanges(toks, first) == if low <= high then RangeBefore(low, high, ReadRanges(more, false)) else Failed
  {
    assert toks[3..] == more;
    assert toks[0] == TokenOf(low) && toks[1] == Plain('-') && toks[2] == TokenOf(high);
    assert StartsDash(toks[1..]);
  }

  lemma ReadLetter(c: char, toks: Tokens, more: Tokens, first: bool)
    requires toks == [TokenOf(c)] + more && more != [] && (first || c != '-' || more[0] == Plain(']'))
    requires !StartsDash(more)
    ensures ReadRanges(toks, first) == RangeBefore(c, c, ReadRanges(more, false))
  {
    assert toks[1..] == more;
  }

  lemma DashBehindRange(c: char, toks: Tokens, more: Tokens)
    requires toks == [Plain('-'), TokenOf(c)] + more
    ensures ReadRanges(toks, false) == Failed
  {
    assert toks[1] == TokenOf(c) != Plain(']');
  }

  lemma LetterFirst(text: string, end: Tokens)
    requires text != ""
    ensures TextTokens(text) + end == [TokenOf(text[0])] + (TextTokens(text[1..]) + end)
  {
    hide TokenOf;
  }

  lemma RangeFirst(text: string, end: Tokens)
    requires |text| >= 3 && text[1] == '-'
    ensures TextTokens(text) + end == [TokenOf(text[0]), Plain('-'), TokenOf(text[2])] + (TextTokens(text[3..]) + end)
  {
    DashIsPlain();
    assert text[1..][1..] == text[2..] && text[2..][1..] == text[3..];
    hide *;
    LetterFirst(text, end);
    LetterFirst(text[1..], end);
    LetterFirst(text[2..], end);
    ThreeFirst(TokenOf(text[0]), TokenOf('-'), TokenOf(text[2]), TextTokens(text[3..]) + end);
  }

  lemma TwoFirst(a: Token, b: Token, more: Tokens)
    ensures [a] + ([b] + more) == [a, b] + more
  {}

  lemma ThreeFirst(a: Token, b: Token, c: Token, more: Tokens)
    ensures [a] + ([b] + ([c] + more)) == [a, b, c] + more
  {}

  lemma NoRangeAhead(text: string, more: Tokens)
    requires text != "" && !(|text| >= 3 && text[1] == '-')
    ensures !StartsDash(TextTokens(text[1..]) + ([Plain(']')] + more))
  {
    DashIsPlain();
    var next := TextTokens(text[1..]) + ([Plain(']')] + more);
    if |text| == 1 {
      assert next == [Plain(']')] + more;
    } else {
      LetterFirst(text[1..], [Plain(']')] + more);
      assert next[0] == TokenOf(text[1]);
      if text[1] == '-' {
        assert text[1..][1..] == "";
        assert next == [TokenOf('-')] + ([Plain(']')] + more);
        assert next[1] == Plain(']');
      }
    }
    hide TokenOf;
  }

  /**
   A class is read up to its end exactly if it is sound. A dash in front is first, or stands behind a
   range, or is last.
   */
  lemma {:induction false} ReadCharacters(characters: string, more: Tokens, first: bool, behindRange: bool)
    requires if first then characters != "" && !behindRange else behindRange || |characters| <= 1 || characters[0] != '-'
    ensures ReadRanges(TextTokens(characters) + ([Plain(']')] + more), first)
         == if IsSoundClass(characters, behindRange) then Parsed(RangesOf(characters), more) else Failed
    decreases |characters|
  {
    hide TextTokens;
    hide TokenOf;
    hide ReadRanges;
    hide StartsDash;
    var end := [Plain(']')] + more;
    if characters == "" {
      NothingLeft(more);
    } else if behindRange && characters[0] == '-' && |characters| > 1 {
      LettersFirst(characters, end);
      DashIsPlain();
      DashBehindRange(characters[1], TextTokens(characters) + end, TextTokens(characters[2..]) + end);
    } else if |characters| >= 3 && characters[1] == '-' {
      ReadCharacters(characters[3..], more, false, true);
      RangeFirst(characters, end);
      ReadRange(characters[0], characters[2], TextTokens(characters) + end, TextTokens(characters[3..]) + end, first);
    } else {
      ReadCharacters(characters[1..], more, false, false);
      LetterFirst(characters, end);
      NoRangeAhead(characters, more);
      LastBeforeEnd(characters, end);
      ReadLetter(characters[0], TextTokens(characters) + end, TextTokens(characters[1..]) + end, first);
    }
  }

  lemma LettersFirst(text: string, end: Tokens)
    requires |text| > 1
    ensures TextTokens(text) + end == [TokenOf(text[0]), TokenOf(text[1])] + (TextTokens(text[2..]) + end)
  {
    hide *;
    assert text[1..][1..] == text[2..];
    LetterFirst(text, end);
    LetterFirst(text[1..], end);
    TwoFirst(TokenOf(text[0]), TokenOf(text[1]), TextTokens(text[2..]) + end);
  }

  lemma LastBeforeEnd(text: string, end: Tokens)
    requires text != "" && end != []
    ensures TextTokens(text[1..]) + end != []
    ensures |text| == 1 ==> (TextTokens(text[1..]) + end)[0] == end[0]
  {
    if |text| == 1 { assert TextTokens(text[1..]) + end == end; }
  }

  lemma NothingLeft(more: Tokens)
    ensures ReadRanges(TextTokens("") + ([Plain(']')] + more), false) == Parsed([], more)
  {
    assert TextTokens("") + ([Plain(']')] + more) == [Plain(']')] + more;
    assert ([Plain(']')] + more)[1..] == more;
  }

  lemma DashIsPlain()
    ensures TokenOf('-') == Plain('-') && forall c: char :: TokenOf(c) == Plain('-') ==> c == '-'
  {}

  lemma ReadGroup(negated: bool, characters: string, more: Tokens)
    requires characters != ""
    ensures ReadAtom(NodeTokens(Group(negated, characters)) + more)
         == if IsSoundClass(characters, false) then Parsed(Class(negated, RangesOf(characters)), more) else Failed
    ensures !EndsBranch(NodeTokens(Group(negated, characters)) + more) && !Starts(NodeTokens(Group(negated, characters)) + more, '*')
  {
    var inside := TextTokens(characters) + ([Plain(']')] + more);
    ReadCharacters(characters, more, true, false);
    GroupParts(negated, characters, more);
    ReadToken(characters[0], inside[1..]);
    assert inside == [TokenOf(characters[0])] + inside[1..];
    hide NodeTokens;
    hide TextTokens;
    hide ReadRanges;
    hide TokenOf;
    ReadBracket(negated, inside, NodeTokens(Group(negated, characters)) + more);
  }

  lemma GroupParts(negated: bool, characters: string, more: Tokens)
    ensures NodeTokens(Group(negated, characters)) + more
         == (if negated then [Plain('['), Plain('^')] else [Plain('[')]) + (TextTokens(characters) + ([Plain(']')] + more))
    ensures characters != "" ==> TextTokens(characters)[0] == TokenOf(characters[0])
  {
    var open := if negated then [Plain('['), Plain('^')] else [Plain('[')];
    assert PlainTokens("[") == [Plain('[')] && PlainTokens("[^") == [Plain('['), Plain('^')];
    assert NodeTokens(Group(negated, characters)) == open + TextTokens(characters) + [Plain(']')];
    hide *;
    JoinRight(open, TextTokens(characters), [Plain(']')], more);
  }

  lemma ReadBracket(negated: bool, inside: Tokens, toks: Tokens)
    requires toks == (if negated then [Plain('['), Plain('^')] else [Plain('[')]) + inside
    requires inside != [] && inside[0] != Plain('^')
    ensures ReadAtom(toks)
         == var ranges := ReadRanges(inside, true);
            if ranges.Failed? then Failed else Parsed(Class(negated, ranges.value), ranges.rest)
    ensures !EndsBranch(toks) && !Starts(toks, '*')
  {
    hide ReadRanges;
    if negated { assert toks[2..] == inside; } else { assert toks[1..] == inside; }
  }

  lemma ReadWildcard(jolly: Jolly, more: Tokens)
    requires !Starts(more, '*')
    ensures ReadBranch(NodeTokens(Wildcard(jolly)) + more) == Prepended(TranslateNode(Wildcard(jolly)), ReadBranch(more))
    ensures !Starts(NodeTokens(Wildcard(jolly)) + more, '*')
  {
    match jolly
    case AnyLetter =>
      NoSlashTokens(more);
      ReadSingle(NodeTokens(Wildcard(jolly)) + more, NO_SLASH, more);
    case AnyName =>
      NoSlashTokens([Plain('*')] + more);
      NameTokens(more);
      ReadRepeated(NodeTokens(Wildcard(jolly)) + more, NO_SLASH, more);
    case AnyPath =>
      PathTokens(more);
      ReadRepeated(NodeTokens(Wildcard(jolly)) + more, AnyChar, more);
  }

  lemma PathTokens(more: Tokens)
    ensures NodeTokens(Wildcard(AnyPath)) + more == [Plain('.')] + ([Plain('*')] + more)
    ensures ReadAtom(NodeTokens(Wildcard(AnyPath)) + more) == Parsed(AnyChar, [Plain('*')] + more)
    ensures !EndsBranch(NodeTokens(Wildcard(AnyPath)) + more)
  {
    var toks := NodeTokens(Wildcard(AnyPath)) + more;
    assert PlainTokens(".*") == [Plain('.'), Plain('*')];
    assert toks[1..] == [Plain('*')] + more;
  }

  lemma NameTokens(more: Tokens)
    ensures NodeTokens(Wildcard(AnyName)) + more == NodeTokens(Wildcard(AnyLetter)) + ([Plain('*')] + more)
  {
    LetterTokens();
    assert PlainTokens("[^/]*") == [Plain('['), Plain('^'), Plain('/'), Plain(']'), Plain('*')] by {
      assert "[^/]*"[1..] == "^/]*" && "^/]*"[1..] == "/]*" && "/]*"[1..] == "]*" && "]*"[1..] == "*";
      assert PlainTokens("*") == [Plain('*')];
      assert PlainTokens("]*") == [Plain(']'), Plain('*')];
      assert PlainTokens("/]*") == [Plain('/'), Plain(']'), Plain('*')];
    }
  }

  lemma LetterTokens()
    ensures NodeTokens(Wildcard(AnyLetter)) == [Plain('['), Plain('^'), Plain('/'), Plain(']')]
  {
    assert "[^/]"[1..] == "^/]" && "^/]"[1..] == "/]" && "/]"[1..] == "]";
    assert PlainTokens("]") == [Plain(']')];
    assert PlainTokens("/]") == [Plain('/'), Plain(']')];
  }

  lemma NoSlashTokens(more: Tokens)
    ensures ReadAtom(NodeTokens(Wildcard(AnyLetter)) + more) == Parsed(NO_SLASH, more)
    ensures !EndsBranch(NodeTokens(Wildcard(AnyLetter)) + more) && !Starts(NodeTokens(Wildcard(AnyLetter)) + more, '*')
  {
    LetterTokens();
    ReadCharacters("/", more, true, false);
    assert IsSoundClass("/", false);
    var inside := TextTokens("/") + ([Plain(']')] + more);
    assert TextTokens("/") == [Plain('/')] && RangesOf("/") == [Range('/', '/')];
    assert NodeTokens(Wildcard(AnyLetter)) + more == [Plain('['), Plain('^')] + inside;
    hide TextTokens;
    hide NodeTokens;
    hide ReadRanges;
    ReadBracket(true, inside, NodeTokens(Wildcard(AnyLetter)) + more);
  }

  /** A node is read up to its end, whatever follows. */
  lemma {:induction false} ReadNode(n: Node, more: Tokens)
    requires IsParsedNode(n) && !Starts(more, '*')
    ensures ReadBranch(NodeTokens(n) + more) == if IsSoundNode(n) then Prepended(TranslateNode(n), ReadBranch(more)) else Failed
    ensures !Starts(NodeTokens(n) + more, '*')
    decreases n
  {
    hide ReadBranch;
    hide ReadAtom;
    hide EndsBranch;
    match n
    case Wildcard(jolly) => ReadWildcard(jolly, more);
    case Literal(text) => ReadText(text, more);
    case Group(negated, characters) =>
      ReadGroup(negated, characters, more);
      if IsSoundClass(characters, false) {
        ReadSingle(NodeTokens(n) + more, Class(negated, RangesOf(characters)), more);
      } else {
        NothingRead(NodeTokens(n) + more);
      }
    case Alternation(alternatives) =>
      Closing(more);
      ReadAlternatives(alternatives, [Plain(')')] + more);
      ReadParentheses(alternatives, more);
      if IsSoundNode(n) {
        ReadSingle(NodeTokens(n) + more, Choice(TranslateAlternatives(alternatives)), more);
      } else {
        NothingRead(NodeTokens(n) + more);
      }
  }

  lemma Closing(more: Tokens)
    ensures EndsBranch([Plain(')')] + more) && !Starts([Plain(')')] + more, '|') && !Starts([Plain(')')] + more, '*')
    ensures EndsBranch([Plain('|')] + more) && !Starts([Plain('|')] + more, '*')
    ensures EndsBranch([Plain('$')] + more) && !Starts([Plain('$')] + more, '*')
  {}

  lemma ReadParentheses(alternatives: seq<Branch>, more: Tokens)
    requires var choice := ReadChoice(AlternativeTokens(alternatives) + ([Plain(')')] + more));
             choice == Failed || choice == Parsed(TranslateAlternatives(alternatives), [Plain(')')] + more)
    ensures ReadAtom(NodeTokens(Alternation(alternatives)) + more)
         == if ReadChoice(AlternativeTokens(alternatives) + ([Plain(')')] + more)).Failed? then Failed
            else Parsed(Choice(TranslateAlternatives(alternatives)), more)
    ensures !EndsBranch(NodeTokens(Alternation(alternatives)) + more) && !Starts(NodeTokens(Alternation(alternatives)) + more, '*')
  {
    hide ReadChoice;
    hide AlternativeTokens;
    hide TranslateAlternatives;
    var toks, inside := NodeTokens(Alternation(alternatives)) + more, AlternativeTokens(alternatives) + ([Plain(')')] + more);
    assert "(?:"[1..] == "?:" && "?:"[1..] == ":";
    assert PlainTokens(":") == [Plain(':')];
    assert PlainTokens("?:") == [Plain('?'), Plain(':')];
    assert PlainTokens("(?:") == [Plain('('), Plain('?'), Plain(':')];
    assert toks == [Plain('('), Plain('?'), Plain(':')] + inside;
    assert toks[3..] == inside && ([Plain(')')] + more)[1..] == more;
  }

  lemma {:induction false} ReadExpression(e: Expression, more: Tokens)
    requires IsParsed(e) && !Starts(more, '*')
    ensures ReadBranch(ExpressionTokens(e) + more) == if IsSound(e) then Prepended(Translate(e), ReadBranch(more)) else Failed
    ensures !Starts(ExpressionTokens(e) + more, '*')
    decreases e, 0
  {
    hide ReadBranch;
    hide NodeTokens;
    hide TranslateNode;
    if e == [] {
      assert ExpressionTokens(e) + more == more;
      PrependedNothing(ReadBranch(more));
    } else {
      var rest := ExpressionTokens(e[1..]) + more;
      ReadExpression(e[1..], more);
      ReadNode(e[0], rest);
      assert ExpressionTokens(e) + more == NodeTokens(e[0]) + rest;
      PrependedTwice(TranslateNode(e[0]), Translate(e[1..]), ReadBranch(more));
    }
  }

  lemma EndOfBranch(more: Tokens)
    requires EndsBranch(more)
    ensures ReadBranch(more) == Parsed([], more)
  {}

  lemma PrependedLast(r: Regexes, more: Tokens)
    ensures Prepended(r, Parsed([], more)) == Parsed(r, more)
  {
    assert r + [] == r;
  }

  lemma ReadLastBranch(e: Expression, more: Tokens)
    requires IsParsed(e) && EndsBranch(more) && !Starts(more, '*')
    ensures ReadBranch(ExpressionTokens(e) + more) == if IsSound(e) then Parsed(Translate(e), more) else Failed
    decreases e, 1
  {
    hide *;
    ReadExpression(e, more);
    EndOfBranch(more);
    PrependedLast(Translate(e), more);
  }

  predicate AllSound(alternatives: seq<Branch>) {
    forall i :: 0 <= i < |alternatives| ==> IsSound(alternatives[i].expression)
  }

  /** The branches of a choice up to what ends it. */
  lemma {:induction false} ReadAlternatives(alternatives: seq<Branch>, more: Tokens)
    requires alternatives != [] && forall i :: 0 <= i < |alternatives| ==> IsParsed(alternatives[i].expression)
    requires EndsBranch(more) && !Starts(more, '|') && !Starts(more, '*')
    ensures ReadChoice(AlternativeTokens(alternatives) + more)
         == if AllSound(alternatives) then Parsed(TranslateAlternatives(alternatives), more) else Failed
    decreases alternatives
  {
    hide IsSound;
    hide ReadBranch;
    hide ReadChoice;
    hide ExpressionTokens;
    hide IsParsed;
    hide EndsBranch;
    hide Starts;
    hide Translate;
    var e := alternatives[0].expression;
    if |alternatives| == 1 {
      ReadLastBranch(e, more);
      assert TranslateAlternatives(alternatives) == [Pieces(Translate(e))];
      OneBranch(ExpressionTokens(e) + more, ReadBranch(ExpressionTokens(e) + more), more);
    } else {
      var rest := AlternativeTokens(alternatives[1..]) + more;
      ReadAlternatives(alternatives[1..], more);
      hide AlternativeTokens;
      Closing(rest);
      ReadLastBranch(e, [Plain('|')] + rest);
      FirstAlternative(alternatives, "", more);
      MoreBranches(ExpressionTokens(e) + ([Plain('|')] + rest), rest);
    }
  }

  lemma OneBranch(toks: Tokens, branch: Parsed<Regexes>, more: Tokens)
    requires ReadBranch(toks) == branch && (branch.Parsed? ==> branch.rest == more) && !Starts(more, '|')
    ensures ReadChoice(toks) == if branch.Failed? then Failed else Parsed([Pieces(branch.value)], more)
  {
    hide ReadBranch;
  }

  lemma MoreBranches(toks: Tokens, rest: Tokens)
    requires var branch := ReadBranch(toks); branch.Parsed? ==> branch.rest == [Plain('|')] + rest
    ensures var branch, others := ReadBranch(toks), ReadChoice(rest);
            ReadChoice(toks)
            == if branch.Failed? || others.Failed? then Failed else Parsed([Pieces(branch.value)] + others.value, others.rest)
  {
    hide ReadBranch;
    assert ([Plain('|')] + rest)[1..] == rest;
  }

  // ----- the whole -----

  lemma RenderedIsRead(e: Expression, caseSensitive: bool)
    requires IsParsed(e)
    ensures ReadBody(caseSensitive, Render(e) + "$")
         == if IsSound(e) then Parsed(Pattern(caseSensitive, Translate(e)), []) else Failed
  {
    LexExpression(e, "$");
    assert Lex("$") == [Plain('$')];
    assert [Plain('$')] + [] == [Plain('$')];
    Closing([]);
    ReadLastBranch(e, [Plain('$')]);
    hide ReadBranch;
    hide Lex;
  }

  /** A rendered expression does not begin like an option. */
  lemma {:induction false} NoOptionInFront(e: Expression)
    requires IsParsed(e)
    ensures !("(?i)" <= Render(e) + "$")
  {
    if e != [] {
      NodeIsNoOption(e[0], Render(e[1..]) + "$");
      assert Render(e) + "$" == RenderNode(e[0]) + (Render(e[1..]) + "$");
    }
  }

  lemma NodeIsNoOption(n: Node, rest: string)
    requires IsParsedNode(n)
    ensures !("(?i)" <= RenderNode(n) + rest)
  {
    var text := RenderNode(n) + rest;
    match n
    case Wildcard(jolly) => assert text[0] == RenderWildcard(jolly)[0];
    case Literal(t) => assert text[0] == EscapedChar(t[0])[0];
    case Group(_, _) => assert text[0] == '[';
    case Alternation(alternatives) => assert text[2] == ':';
  }

  /**
   The rendered text is a regular expression exactly if the classes of the glob are sound. Then rendering
   keeps the meaning: the text reads as a pattern, anchored at its end and with the case option asked for,
   that finds exactly the strings ending in something the glob denotes.
   */
  lemma RenderingKeepsMeaning(e: Expression, caseSensitive: bool, s: string)
    requires IsParsed(e)
    ensures var read := ReadPattern(RenderAst(e, caseSensitive));
            && (read.Parsed? <==> IsSound(e))
            && (read.Parsed? ==> read.value.caseSensitive == caseSensitive && (Finds(read.value, s) <==> EndsIn(e, s)))
  {
    hide Render;
    hide ReadBody;
    hide IsSound;
    RenderedIsRead(e, caseSensitive);
    if caseSensitive {
      NoOptionInFront(e);
      assert "" + Render(e) + "$" == Render(e) + "$";
    } else {
      assert "(?i)" + Render(e) + "$" == "(?i)" + (Render(e) + "$");
      assert ("(?i)" + (Render(e) + "$"))[4..] == Render(e) + "$";
    }
    forall k | 0 <= k <= |s| ensures Matches(Translate(e), s[k..]) <==> Denotes(e, s[k..]) { IsTranslated(e, s[k..]); }
  }
}
