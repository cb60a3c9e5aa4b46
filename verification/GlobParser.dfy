/** The grammar of globs (lib/glob2regex, glob_ast.cpp): ordered choice, from text to expression. */
module GlobParser {
  import opened GlobAst
  import opened GlobRendering
  import opened RegexText

  datatype Result<T> = NoMatch | Match(node: T, rest: string)

  const SPECIAL_CHARS: string := "{}[]*\\+? "

  /** What ends a literal; inside an alternation a comma does, too. */
  predicate EndsLiteral(c: char, inside: bool) { c in SPECIAL_CHARS || (inside && c == ',') }

  predicate Begins(text: string, c: char) { text != "" && text[0] == c }

  /** Ordinary characters, and special ones behind a backslash. */
  function ParseText(text: string, inside: bool): (r: (string, string))
    ensures |r.1| <= |text| && (r.0 != "" ==> |r.1| < |text|)
  {
    if text != "" && !EndsLiteral(text[0], inside) then
      var more := ParseText(text[1..], inside);
      ([text[0]] + more.0, more.1)
    else if |text| >= 2 && text[0] == '\\' && text[1] in SPECIAL_CHARS then
      var more := ParseText(text[2..], inside);
      ([text[1]] + more.0, more.1)
    else ("", text)
  }

  /** Everything up to a closing bracket; a backslash is a character like any other. */
  function UpToBracket(text: string): (r: (string, string))
    ensures |r.1| <= |text|
  {
    if text == "" || text[0] == ']' then ("", text)
    else var more := UpToBracket(text[1..]); ([text[0]] + more.0, more.1)
  }

  function ParseBracket(text: string): (r: Result<Node>)
    ensures r.Match? ==> |r.rest| < |text|
  {
    if !Begins(text, '[') then NoMatch
    else
      var negated := Begins(text[1..], '!');
      var inside := if negated then text[2..] else text[1..];
      var first := if Begins(inside, ']') then "]" else "";
      var more := UpToBracket(inside[|first|..]);
      if Begins(more.1, ']') then Match(Group(negated, first + more.0), more.1[1..]) else NoMatch
  }

  /** Single characters with commas between them. */
  function ParseLetters(text: string): (r: Result<string>)
    ensures r.Match? ==> |r.rest| < |text| && r.node != ""
  {
    if text == "" || text[0] in SPECIAL_CHARS then NoMatch
    else if Begins(text[1..], ',') then
      var more := ParseLetters(text[2..]);
      if more.Match? then Match([text[0]] + more.node, more.rest) else Match([text[0]], text[1..])
    else Match([text[0]], text[1..])
  }

  /** A list of single characters in braces is a class of characters. */
  function ParseLetterList(text: string): (r: Result<Node>)
    ensures r.Match? ==> |r.rest| < |text|
  {
    if !Begins(text, '{') then NoMatch
    else
      var letters := ParseLetters(text[1..]);
      if letters.Match? && Begins(letters.rest, '}') then Match(Group(false, letters.node), letters.rest[1..]) else NoMatch
  }

  function ParseGroup(text: string): (r: Result<Node>)
    ensures r.Match? ==> |r.rest| < |text|
  {
    var bracket := ParseBracket(text);
    if bracket.Match? then bracket else ParseLetterList(text)
  }

  function ParseJolly(text: string): (r: Result<Node>)
    ensures r.Match? ==> |r.rest| < |text|
  {
    if Begins(text, '*') && Begins(text[1..], '*') then Match(Wildcard(AnyPath), text[2..])
    else if Begins(text, '*') then Match(Wildcard(AnyName), text[1..])
    else if Begins(text, '?') then Match(Wildcard(AnyLetter), text[1..])
    else NoMatch
  }

  function ParseLiteral(text: string, inside: bool): (r: Result<Node>)
    ensures r.Match? ==> |r.rest| < |text|
  {
    var t := ParseText(text, inside);
    if t.0 != "" then Match(Literal(t.0), t.1) else NoMatch
  }

  /** One part of an expression: the first of the rules that fits. */
  function ParseNode(text: string, inside: bool): (r: Result<Node>)
    ensures r.Match? ==> |r.rest| < |text|
    decreases |text|, 1
  {
    var group := ParseGroup(text);
    if group.Match? then group
    else
      var alternation := ParseAlternation(text);
      if alternation.Match? then alternation
      else
        var literal := ParseLiteral(text, inside);
        if literal.Match? then literal else ParseJolly(text)
  }

  /** As many parts as there are. */
  function ParseExpression(text: string, inside: bool): (r: (Expression, string))
    ensures |r.1| <= |text|
    decreases |text|, 2
  {
    var node := ParseNode(text, inside);
    if node.NoMatch? then ([], text)
    else var more := ParseExpression(node.rest, inside); ([node.node] + more.0, more.1)
  }

  function ParseAlternation(text: string): (r: Result<Node>)
    ensures r.Match? ==> |r.rest| < |text|
    decreases |text|, 0
  {
    if !Begins(text, '{') then NoMatch
    else
      var branches := ParseBranches(text[1..]);
      if Begins(branches.1, '}') then Match(Alternation(branches.0), branches.1[1..]) else NoMatch
  }

  /** Expressions with commas between them; each may be empty. */
  function ParseBranches(text: string): (r: (seq<Branch>, string))
    ensures |r.1| <= |text| && r.0 != []
    decreases |text|, 3
  {
    var first := ParseExpression(text, true);
    if Begins(first.1, ',') then var more := ParseBranches(first.1[1..]); ([Branch(first.0)] + more.0, more.1)
    else ([Branch(first.0)], first.1)
  }

  datatype Ast = ParsingError(position: nat) | Success(expression: Expression)

  function MakeAst(glob: string): Ast {
    var r := ParseExpression(glob, false);
    if r.1 == "" then Success(r.0) else ParsingError(|r.1|)
  }

  // ----- what the parser makes -----

  lemma {:induction false} ExpressionIsParsed(text: string, inside: bool)
    ensures IsParsed(ParseExpression(text, inside).0)
    decreases |text|, 2
  {
    var node := ParseNode(text, inside);
    if node.Match? {
      NodeIsParsed(text, inside);
      ExpressionIsParsed(node.rest, inside);
      hide ParseNode;
      hide IsParsedNode;
    }
  }

  lemma {:induction false} NodeIsParsed(text: string, inside: bool)
    ensures ParseNode(text, inside).Match? ==> IsParsedNode(ParseNode(text, inside).node)
    decreases |text|, 1
  {
    BracketIsParsed(text);
    AlternationIsParsed(text);
    assert ParseLetterList(text).Match? ==> IsParsedNode(ParseLetterList(text).node);
    assert ParseLiteral(text, inside).Match? ==> IsParsedNode(ParseLiteral(text, inside).node);
    assert ParseJolly(text).Match? ==> IsParsedNode(ParseJolly(text).node);
    hide IsParsedNode;
    hide ParseBracket;
    hide ParseLetterList;
    hide ParseAlternation;
    hide ParseLiteral;
    hide ParseJolly;
  }

  lemma {:induction false} AlternationIsParsed(text: string)
    ensures ParseAlternation(text).Match? ==> IsParsedNode(ParseAlternation(text).node)
    decreases |text|, 0
  {
    hide IsParsed;
    hide ParseBranches;
    if Begins(text, '{') { BranchesAreParsed(text[1..]); }
  }

  lemma BracketIsParsed(text: string)
    ensures ParseBracket(text).Match? ==> IsParsedNode(ParseBracket(text).node)
  {
    if Begins(text, '[') {
      var inside := if Begins(text[1..], '!') then text[2..] else text[1..];
      assert inside[0..] == inside;
    }
  }

  lemma {:induction false} BranchesAreParsed(text: string)
    ensures forall i :: 0 <= i < |ParseBranches(text).0| ==> IsParsed(ParseBranches(text).0[i].expression)
    decreases |text|, 3
  {
    var first := ParseExpression(text, true);
    ExpressionIsParsed(text, true);
    if Begins(first.1, ',') { BranchesAreParsed(first.1[1..]); }
    hide ParseExpression;
    hide IsParsed;
  }

  /** The regular expression for a glob, or the place of a syntax error. */
  datatype Converted = SyntaxError(position: nat) | Expression(regex: string)

  function Convert(glob: string, caseSensitive: bool): Converted {
    match MakeAst(glob)
    case ParsingError(position) => SyntaxError(position)
    case Success(e) => Converted.Expression(RenderAst(e, caseSensitive))
  }

  /** The pattern that the regular expression for a glob reads as finds the text. */
  ghost predicate GlobFinds(glob: string, caseSensitive: bool, s: string) {
    match Convert(glob, caseSensitive)
    case SyntaxError(_) => false
    case Expression(regex) => ReadPattern(regex).Parsed? && Finds(ReadPattern(regex).value, s)
  }

  /**
   What a glob is converted to is a regular expression exactly if its classes are sound. It then finds
   exactly the strings that end in something the expression of the glob denotes.
   */
  lemma ConvertKeepsMeaning(glob: string, caseSensitive: bool, s: string)
    requires MakeAst(glob).Success?
    ensures Convert(glob, caseSensitive).Expression?
    ensures var read := ReadPattern(Convert(glob, caseSensitive).regex);
            (read.Parsed? <==> IsSound(MakeAst(glob).expression)) && (read.Parsed? ==> read.value.caseSensitive == caseSensitive)
    ensures GlobFinds(glob, caseSensitive, s) <==> IsSound(MakeAst(glob).expression) && EndsIn(MakeAst(glob).expression, s)
  {
    ExpressionIsParsed(glob, false);
    RenderingKeepsMeaning(MakeAst(glob).expression, caseSensitive, s);
    hide IsSound;
    hide MakeAst;
    hide RenderAst;
    hide ReadPattern;
    hide Finds;
  }

  // ----- literal text -----

  /** Text with a backslash before every character the grammar gives a meaning. */
  function EscapeGlob(text: string): string {
    if text == "" then ""
    else (if text[0] in SPECIAL_CHARS then ['\\', text[0]] else [text[0]]) + EscapeGlob(text[1..])
  }

  lemma {:induction false} EscapedTextIsParsed(text: string)
    ensures ParseText(EscapeGlob(text), false) == (text, "")
  {
    if text != "" {
      var glob, more := EscapeGlob(text), EscapeGlob(text[1..]);
      EscapedTextIsParsed(text[1..]);
      assert text == [text[0]] + text[1..];
      if text[0] in SPECIAL_CHARS {
        assert glob[2..] == more && glob[0] == '\\' && glob[1] == text[0];
        assert EndsLiteral('\\', false);
      } else {
        assert glob[1..] == more && glob[0] == text[0];
      }
    }
  }

  lemma NoGroupInFront(text: string)
    requires text != ""
    ensures !Begins(EscapeGlob(text), '[') && !Begins(EscapeGlob(text), '{')
  {
    assert EscapeGlob(text)[0] == if text[0] in SPECIAL_CHARS then '\\' else text[0];
    assert '[' in SPECIAL_CHARS && '{' in SPECIAL_CHARS;
  }

  /** Escaped text is a literal, whatever characters it has. */
  lemma EscapedGlobIsLiteral(text: string)
    requires text != ""
    ensures MakeAst(EscapeGlob(text)) == Success([Literal(text)])
  {
    var glob := EscapeGlob(text);
    NoGroupInFront(text);
    EscapedTextIsParsed(text);
    assert ParseNode(glob, false) == Match(Literal(text), "");
    assert ParseNode("", false) == NoMatch;
    hide ParseNode;
    assert ParseExpression("", false) == ([], "");
    assert [Literal(text)] + [] == [Literal(text)];
  }

  lemma LiteralDenotes(text: string, s: string)
    ensures Denotes([Literal(text)], s) <==> s == text
  {
    assert s[..|s|] == s && s[|s|..] == "" && [Literal(text)][1..] == [];
    if Denotes([Literal(text)], s) {
      var k :| 0 <= k <= |s| && DenotesNode(Literal(text), s[..k]) && Denotes([], s[k..]);
      assert s[..k] == s;
    }
  }

  /** So the regular expression made of escaped text finds just the strings that end in the text. */
  lemma EscapedGlobFindsText(text: string, caseSensitive: bool, s: string)
    requires text != ""
    ensures GlobFinds(EscapeGlob(text), caseSensitive, s) <==> |text| <= |s| && s[|s| - |text|..] == text
  {
    hide *;
    EscapedGlobIsLiteral(text);
    LiteralIsSound(text);
    ConvertKeepsMeaning(EscapeGlob(text), caseSensitive, s);
    EndsInText(text, s);
  }

  lemma LiteralIsSound(text: string)
    ensures IsSound([Literal(text)])
  {}

  lemma EndsInText(text: string, s: string)
    ensures EndsIn([Literal(text)], s) <==> |text| <= |s| && s[|s| - |text|..] == text
  {
    hide Denotes;
    forall k | 0 <= k <= |s| ensures Denotes([Literal(text)], s[k..]) <==> s[k..] == text { LiteralDenotes(text, s[k..]); }
    if k :| 0 <= k <= |s| && Denotes([Literal(text)], s[k..]) { assert |s[k..]| == |text|; }
    if |text| <= |s| && s[|s| - |text|..] == text { assert Denotes([Literal(text)], s[|s| - |text|..]); }
  }

  // ----- lists of single characters -----

  /** One branch for each character. */
  function LetterBranches(letters: string): (b: seq<Branch>)
    ensures |b| == |letters| && forall i :: 0 <= i < |letters| ==> b[i] == Branch([Literal([letters[i]])])
  {
    if letters == "" then [] else [Branch([Literal([letters[0]])])] + LetterBranches(letters[1..])
  }

  /** The characters with commas between them. */
  function Listed(letters: string): string {
    if |letters| <= 1 then letters else [letters[0], ','] + Listed(letters[1..])
  }

  predicate ArePlain(text: string) { forall i :: 0 <= i < |text| ==> text[i] !in SPECIAL_CHARS }

  lemma {:induction false} LettersAreRead(letters: string, rest: string)
    requires letters != "" && ArePlain(letters)
    ensures ParseLetters(Listed(letters) + "}" + rest) == Match(letters, "}" + rest)
  {
    var text := Listed(letters) + "}" + rest;
    if |letters| == 1 {
      assert text[1..] == "}" + rest && text[0] == letters[0];
      assert letters == [letters[0]];
    } else {
      var more := Listed(letters[1..]) + "}" + rest;
      LettersAreRead(letters[1..], rest);
      assert text == [letters[0], ','] + more;
      MoreLetters(letters[0], more);
      assert letters == [letters[0]] + letters[1..];
    }
  }

  /** The rule for single characters takes the list as a class. */
  lemma ListIsClass(letters: string, rest: string)
    requires letters != "" && ArePlain(letters)
    ensures ParseLetterList("{" + (Listed(letters) + "}" + rest)) == Match(Group(false, letters), rest)
  {
    var inside := Listed(letters) + "}" + rest;
    LettersAreRead(letters, rest);
    assert ("{" + inside)[1..] == inside && ("}" + rest)[1..] == rest;
    hide ParseLetters;
    hide Listed;
  }

  lemma {:induction false} ReadIsListed(text: string)
    requires ParseLetters(text).Match?
    ensures var r := ParseLetters(text); ArePlain(r.node) && text == Listed(r.node) + r.rest
    decreases |text|
  {
    if Begins(text[1..], ',') && ParseLetters(text[2..]).Match? {
      var more := ParseLetters(text[2..]);
      ReadIsListed(text[2..]);
      var letters := [text[0]] + more.node;
      assert letters[1..] == more.node;
      assert text == [text[0], ','] + text[2..];
    } else {
      assert text == [text[0]] + text[1..];
    }
  }

  /** And it takes nothing else. */
  lemma ClassIsList(text: string)
    requires ParseLetterList(text).Match?
    ensures exists letters, rest :: letters != "" && ArePlain(letters) && text == "{" + (Listed(letters) + "}" + rest)
  {
    var inside := text[1..];
    var letters := ParseLetters(inside);
    ReadIsListed(inside);
    assert letters.rest == "}" + letters.rest[1..];
    assert text == "{" + inside;
    hide ParseLetters;
    hide Listed;
    assert inside == Listed(letters.node) + "}" + letters.rest[1..];
  }

  function FieldLength(text: string): (n: nat)
    ensures n <= |text| && (n < |text| ==> text[n] == ',')
  {
    if text == "" || text[0] == ',' then 0 else 1 + FieldLength(text[1..])
  }

  function FieldExpression(field: string): Expression { if field == "" then [] else [Literal(field)] }

  /** One branch for each stretch between commas; it may be empty. */
  function FieldBranches(text: string): (b: seq<Branch>)
    decreases |text|
  {
    var n := FieldLength(text);
    if n == |text| then [Branch(FieldExpression(text))]
    else [Branch(FieldExpression(text[..n]))] + FieldBranches(text[n + 1..])
  }

  lemma {:induction false} FieldIsText(text: string, rest: string)
    requires ArePlain(text)
    ensures var n := FieldLength(text); ParseText(text + "}" + rest, true) == (text[..n], text[n..] + "}" + rest)
  {
    var all := text + "}" + rest;
    if text == "" || text[0] == ',' {
      assert text[..0] == "" && text[0..] == text;
    } else {
      FieldIsText(text[1..], rest);
      var n := FieldLength(text);
      assert all[1..] == text[1..] + "}" + rest && all[0] == text[0];
      assert text[..n] == [text[0]] + text[1..][..n - 1] && text[n..] == text[1..][n - 1..];
    }
  }

  /** A stretch up to a comma or the closing brace is a literal, or nothing. */
  lemma FieldIsExpression(text: string, rest: string)
    requires ArePlain(text)
    ensures var n := FieldLength(text);
            ParseExpression(text + "}" + rest, true) == (FieldExpression(text[..n]), text[n..] + "}" + rest)
  {
    var n, all := FieldLength(text), text + "}" + rest;
    var after := text[n..] + "}" + rest;
    FieldIsText(text, rest);
    assert FieldLength(text[n..]) == 0;
    FieldIsText(text[n..], rest);
    assert text[n..][..0] == "" && text[n..][0..] == text[n..];
    assert !Begins(all, '[') && !Begins(all, '{') && !Begins(all, '*') && !Begins(all, '?') by {
      assert all[0] == if text == "" then '}' else text[0];
    }
    assert !Begins(after, '[') && !Begins(after, '{') && !Begins(after, '*') && !Begins(after, '?') by {
      assert after[0] == if n == |text| then '}' else ',';
    }
    hide ParseText;
    NothingButText(all, true);
    NothingButText(after, true);
    hide ParseNode;
    hide FieldLength;
    assert ParseExpression(after, true) == ([], after);
    assert [Literal(text[..n])] + [] == [Literal(text[..n])];
    if n == 0 { assert text[..0] == ""; }
  }

  lemma NothingButText(text: string, inside: bool)
    requires !Begins(text, '[') && !Begins(text, '{') && !Begins(text, '*') && !Begins(text, '?')
    ensures ParseNode(text, inside) == ParseLiteral(text, inside)
  {
    assert ParseGroup(text) == NoMatch && ParseAlternation(text) == NoMatch && ParseJolly(text) == NoMatch;
    hide ParseLiteral;
    hide ParseGroup;
    hide ParseAlternation;
    hide ParseJolly;
  }

  lemma BranchesStep(text: string, e: Expression, after: string)
    requires ParseExpression(text, true) == (e, after)
    ensures ParseBranches(text)
         == if Begins(after, ',') then ([Branch(e)] + ParseBranches(after[1..]).0, ParseBranches(after[1..]).1) else ([Branch(e)], after)
  {
    hide ParseExpression;
  }

  lemma {:induction false} FieldsAreBranches(text: string, rest: string)
    requires ArePlain(text)
    ensures ParseBranches(text + "}" + rest) == (FieldBranches(text), "}" + rest)
    decreases |text|
  {
    hide ParseExpression;
    hide ParseBranches;
    hide FieldLength;
    hide FieldExpression;
    var n, after := FieldLength(text), text[FieldLength(text)..] + "}" + rest;
    FieldIsExpression(text, rest);
    BranchesStep(text + "}" + rest, FieldExpression(text[..n]), after);
    if n < |text| {
      FieldsAreBranches(text[n + 1..], rest);
      assert after == [text[n]] + (text[n + 1..] + "}" + rest);
      assert after[1..] == text[n + 1..] + "}" + rest;
    } else {
      assert text[n..] == "" && text[..n] == text && after == "}" + rest;
    }
  }

  /** The rule for alternations would take any list without special characters as a choice between its fields. */
  lemma ListIsAlternation(list: string, rest: string)
    requires ArePlain(list)
    ensures ParseAlternation("{" + (list + "}" + rest)) == Match(Alternation(FieldBranches(list)), rest)
  {
    var inside := list + "}" + rest;
    FieldsAreBranches(list, rest);
    assert ("{" + inside)[1..] == inside && ("}" + rest)[1..] == rest;
    hide ParseBranches;
    hide FieldBranches;
  }

  lemma {:induction false} ListedIsPlain(letters: string)
    requires ArePlain(letters)
    ensures ArePlain(Listed(letters))
  {
    if |letters| > 1 {
      ListedIsPlain(letters[1..]);
      assert ',' !in SPECIAL_CHARS;
    }
  }

  lemma FirstField(c: char, more: string)
    requires c != ','
    ensures FieldBranches([c, ','] + more) == [Branch([Literal([c])])] + FieldBranches(more)
  {
    var text := [c, ','] + more;
    assert text[1..] == [','] + more && text[1..][0] == ',' && text[2..] == more && text[..1] == [c];
    assert FieldLength(text) == 1;
  }

  /** The fields of a list of characters are these, one by one. */
  lemma {:induction false} FieldsAreLetters(letters: string)
    requires letters != "" && ',' !in letters
    ensures FieldBranches(Listed(letters)) == LetterBranches(letters)
  {
    if |letters| == 1 {
      assert letters == [letters[0]] && letters[1..] == "";
      assert FieldLength(letters) == 1 && LetterBranches("") == [];
    } else {
      FieldsAreLetters(letters[1..]);
      FirstField(letters[0], Listed(letters[1..]));
    }
  }

  /** If a comma is one of them there is an empty field. */
  lemma {:induction false} CommaLeavesEmpty(letters: string) returns (i: nat)
    requires ',' in letters
    ensures i < |FieldBranches(Listed(letters))| && FieldBranches(Listed(letters))[i] == Branch([])
  {
    i := 0;
    if letters[0] == ',' {
      assert Listed(letters)[0] == ',';
    } else {
      assert letters == [letters[0]] + letters[1..];
      var k := CommaLeavesEmpty(letters[1..]);
      i := k + 1;
      FirstField(letters[0], Listed(letters[1..]));
      assert |letters| > 1;
    }
  }

  /** Every character of a range is in the list, and every character of the list is in some range. */
  ghost predicate RangesAreListed(letters: string, ranges: seq<Range>) {
    && (forall i, c :: 0 <= i < |ranges| && ranges[i].low <= c <= ranges[i].high ==> c in letters)
    && (forall c :: c in letters ==> InRanges(ranges, c))
  }

  lemma ClassIsListExactlyWhen(letters: string)
    ensures RangesAreListed(letters, RangesOf(letters)) <==> forall c :: InClass(letters, c) <==> c in letters
  {
    var ranges := RangesOf(letters);
    forall c ensures InRanges(ranges, c) <==> InClass(letters, c) { RangesAreClass(letters, c); }
    hide RangesOf;
    hide InClass;
    if forall c :: InClass(letters, c) <==> c in letters {
      forall i, c | 0 <= i < |ranges| && ranges[i].low <= c <= ranges[i].high ensures c in letters {
        assert InRanges(ranges, c);
        assert InClass(letters, c);
      }
    }
  }

  ghost predicate DenoteTheSame(a: Expression, b: Expression) { forall s :: Denotes(a, s) <==> Denotes(b, s) }

  /**
   Class and choice denote the same exactly if the ranges that dashes make of the list hold its
   characters and no others.
   */
  lemma ClassIsChoiceExactlyWhen(letters: string)
    ensures DenoteTheSame([Group(false, letters)], [Alternation(LetterBranches(letters))])
       <==> RangesAreListed(letters, RangesOf(letters))
  {
    var class_, choice := [Group(false, letters)], [Alternation(LetterBranches(letters))];
    ClassIsListExactlyWhen(letters);
    hide Denotes;
    hide InClass;
    hide RangesAreListed;
    hide RangesOf;
    if DenoteTheSame(class_, choice) {
      forall c ensures InClass(letters, c) <==> c in letters {
        ClassTakes(letters, [c]);
        ChoiceTakes(letters, [c]);
        assert Denotes(class_, [c]) <==> Denotes(choice, [c]);
      }
    }
    if RangesAreListed(letters, RangesOf(letters)) {
      forall s ensures Denotes(class_, s) <==> Denotes(choice, s) {
        ClassTakes(letters, s);
        ChoiceTakes(letters, s);
      }
    }
  }

  lemma ClassTakes(letters: string, s: string)
    ensures Denotes([Group(false, letters)], s) <==> |s| == 1 && InClass(letters, s[0])
  {
    OneNodeDenotes(Group(false, letters), s);
    hide Denotes;
  }

  /** A class denotes single characters only, a choice with an empty branch also the empty text. */
  lemma EmptyBranchDiffers(letters: string, branches: seq<Branch>, i: nat)
    requires i < |branches| && branches[i] == Branch([])
    ensures !DenoteTheSame([Group(false, letters)], [Alternation(branches)])
  {
    ClassTakes(letters, "");
    OneNodeDenotes(Alternation(branches), "");
    assert Denotes(branches[i].expression, "");
  }

  /**
   A brace list of single characters is parsed as a class, where the other rule reads the same text as an
   alternation. Both denote the same exactly if no comma is one of the characters and the ranges that
   dashes make of them hold these characters and no others.
   */
  lemma LetterListIsChoiceExactlyWhen(letters: string)
    requires letters != "" && ArePlain(letters)
    ensures var glob, choice := "{" + (Listed(letters) + "}"), Alternation(FieldBranches(Listed(letters)));
            && MakeAst(glob) == Success([Group(false, letters)]) && ParseAlternation(glob) == Match(choice, "")
            && (',' !in letters ==> choice == Alternation(LetterBranches(letters)))
            && (DenoteTheSame(MakeAst(glob).expression, [choice])
                <==> ',' !in letters && RangesAreListed(letters, RangesOf(letters)))
  {
    var list := Listed(letters);
    assert list + "}" + "" == list + "}";
    ListIsClass(letters, "");
    ListedIsPlain(letters);
    ListIsAlternation(list, "");
    OneNodeIsParsed("{" + (list + "}"), Group(false, letters));
    hide *;
    if ',' in letters {
      var i := CommaLeavesEmpty(letters);
      EmptyBranchDiffers(letters, FieldBranches(list), i);
    } else {
      FieldsAreLetters(letters);
      ClassIsChoiceExactlyWhen(letters);
    }
  }

  /** What a glob is converted to finds the strings that end in something the expression denotes. */
  ghost predicate FindsEndingsOf(glob: string, caseSensitive: bool, e: Expression) {
    forall s :: GlobFinds(glob, caseSensitive, s) <==> EndsIn(e, s)
  }

  /**
   So what such a list is converted to finds what ends in one of the choices exactly if it is also a
   regular expression: no dash but the last stands right behind a range, and ranges are in order.
   */
  lemma ListFindsChoiceExactlyWhen(letters: string, caseSensitive: bool)
    requires letters != "" && ArePlain(letters)
    ensures FindsEndingsOf("{" + (Listed(letters) + "}"), caseSensitive, [Alternation(FieldBranches(Listed(letters)))])
       <==> ',' !in letters && RangesAreListed(letters, RangesOf(letters)) && IsSoundClass(letters, false)
  {
    hide *;
    var glob, class_ := "{" + (Listed(letters) + "}"), [Group(false, letters)];
    var branches := FieldBranches(Listed(letters));
    LetterListIsChoiceExactlyWhen(letters);
    OneClassIsSound(letters);
    forall s ensures GlobFinds(glob, caseSensitive, s) <==> IsSoundClass(letters, false) && EndsIn(class_, s) {
      ConvertKeepsMeaning(glob, caseSensitive, s);
    }
    EndingsDiffer(letters, branches);
    var s := SomethingIsChosen(Listed(letters));
    FindsIs(glob, caseSensitive, [Alternation(branches)]);
    EndingsIs(class_, [Alternation(branches)]);
    assert !IsSoundClass(letters, false) ==> GlobFinds(glob, caseSensitive, s) != EndsIn([Alternation(branches)], s);
    if IsSoundClass(letters, false) {
      SoundFindsEndings(glob, caseSensitive, class_, [Alternation(branches)]);
    }
  }

  ghost predicate EndTheSame(a: Expression, b: Expression) { forall s :: EndsIn(a, s) <==> EndsIn(b, s) }

  lemma EndingsIs(a: Expression, b: Expression)
    ensures EndTheSame(a, b) <==> forall s :: EndsIn(a, s) <==> EndsIn(b, s)
  {
    hide EndsIn;
  }

  lemma SoundFindsEndings(glob: string, caseSensitive: bool, a: Expression, b: Expression)
    requires forall s :: GlobFinds(glob, caseSensitive, s) <==> EndsIn(a, s)
    ensures FindsEndingsOf(glob, caseSensitive, b) <==> EndTheSame(a, b)
  {
    hide GlobFinds;
    hide EndsIn;
    if FindsEndingsOf(glob, caseSensitive, b) {
      forall s ensures EndsIn(a, s) <==> EndsIn(b, s) { assert GlobFinds(glob, caseSensitive, s) <==> EndsIn(b, s); }
    }
  }

  lemma FindsIs(glob: string, caseSensitive: bool, e: Expression)
    ensures FindsEndingsOf(glob, caseSensitive, e) <==> forall s :: GlobFinds(glob, caseSensitive, s) <==> EndsIn(e, s)
  {
    hide GlobFinds;
    hide EndsIn;
  }

  lemma OneClassIsSound(letters: string)
    ensures IsSound([Group(false, letters)]) <==> IsSoundClass(letters, false)
  {
    hide IsSoundClass;
    assert [Group(false, letters)][0] == Group(false, letters);
  }

  /** The text of the first field ends in a choice. */
  lemma SomethingIsChosen(list: string) returns (field: string)
    ensures EndsIn([Alternation(FieldBranches(list))], field)
  {
    var branches, n := FieldBranches(list), FieldLength(list);
    field := if n == |list| then list else list[..n];
    assert branches[0] == Branch(FieldExpression(field));
    hide FieldBranches;
    hide FieldLength;
    FieldDenotes(field);
    OneNodeDenotes(Alternation(branches), field);
    hide FieldExpression;
    assert field[0..] == field && Denotes([Alternation(branches)], field[0..]);
  }

  lemma FieldDenotes(field: string)
    ensures Denotes(FieldExpression(field), field)
  {
    if field != "" { LiteralDenotes(field, field); }
  }

  /** Class and choice end the same strings exactly if they denote the same. */
  lemma EndingsDiffer(letters: string, branches: seq<Branch>)
    requires branches == FieldBranches(Listed(letters)) && letters != ""
    ensures EndTheSame([Group(false, letters)], [Alternation(branches)])
       <==> DenoteTheSame([Group(false, letters)], [Alternation(branches)])
  {
    var class_, choice := [Group(false, letters)], [Alternation(branches)];
    if DenoteTheSame(class_, choice) {
      hide Denotes;
      assert forall s :: EndsIn(class_, s) <==> EndsIn(choice, s);
    } else if EndTheSame(class_, choice) {
      EndingsIs(class_, choice);
      hide *;
      EndingsOfOne(class_, "");
      EndingsOfOne(choice, "");
      ClassTakes(letters, "");
      if ',' in letters {
        var i := CommaLeavesEmpty(letters);
        EmptyIsChosen(branches, i);
      } else {
        FieldsAreLetters(letters);
        ChoiceTakes(letters, "");
        forall c ensures InClass(letters, c) <==> c in letters {
          ClassTakes(letters, [c]);
          ChoiceTakes(letters, [c]);
          EndingsOfOne(class_, [c]);
          EndingsOfOne(choice, [c]);
        }
        ClassIsListExactlyWhen(letters);
        ClassIsChoiceExactlyWhen(letters);
      }
    }
  }

  lemma EmptyIsChosen(branches: seq<Branch>, i: nat)
    requires i < |branches| && branches[i] == Branch([])
    ensures Denotes([Alternation(branches)], "")
  {
    OneNodeDenotes(Alternation(branches), "");
    assert Denotes(branches[i].expression, "");
  }

  /** Of a text of one character at most, an ending is all or nothing. */
  lemma EndingsOfOne(e: Expression, s: string)
    requires |s| <= 1
    ensures EndsIn(e, s) <==> Denotes(e, s) || Denotes(e, "")
  {
    hide Denotes;
    assert s[0..] == s && s[|s|..] == "";
    if Denotes(e, s) { assert Denotes(e, s[0..]); }
    if Denotes(e, "") { assert Denotes(e, s[|s|..]); }
  }

  lemma OneNodeIsParsed(glob: string, node: Node)
    requires Begins(glob, '{') && ParseLetterList(glob) == Match(node, "")
    ensures MakeAst(glob) == Success([node])
  {
    hide ParseLetterList;
    OneGroupIsParsed(glob, node);
  }

  lemma OneNodeDenotes(node: Node, s: string)
    ensures Denotes([node], s) <==> DenotesNode(node, s)
  {
    assert s[..|s|] == s && s[|s|..] == "" && [node][1..] == [];
    hide DenotesNode;
    if Denotes([node], s) {
      var k :| 0 <= k <= |s| && DenotesNode([node][0], s[..k]) && Denotes([node][1..], s[k..]);
      assert s[k..] == "" && s[..k] == s;
    }
  }

  predicate NoInnerDash(letters: string) { forall i :: 0 < i < |letters| - 1 ==> letters[i] != '-' }

  lemma {:induction false} ClassWithoutRanges(letters: string, c: char)
    requires NoInnerDash(letters)
    ensures InClass(letters, c) <==> c in letters
  {
    if letters != "" {
      ClassWithoutRanges(letters[1..], c);
      assert letters == [letters[0]] + letters[1..];
    }
  }

  /** So it is without a dash between other characters. */
  lemma NoDashNoRange(letters: string)
    requires NoInnerDash(letters)
    ensures RangesAreListed(letters, RangesOf(letters))
  {
    forall c ensures InClass(letters, c) <==> c in letters { ClassWithoutRanges(letters, c); }
    ClassIsListExactlyWhen(letters);
    hide *;
  }

  lemma MoreLetters(c: char, rest: string)
    requires c !in SPECIAL_CHARS && ParseLetters(rest).Match?
    ensures ParseLetters([c, ','] + rest) == Match([c] + ParseLetters(rest).node, ParseLetters(rest).rest)
  {
    assert ([c, ','] + rest)[2..] == rest;
  }

  lemma NothingToParse()
    ensures ParseExpression("", false) == ([], "")
  {
    assert ParseNode("", false) == NoMatch;
  }

  /** With a dash inside it need not: `{a,-,c}` also takes `b`, and does not take the dash. */
  lemma DashMakesRange()
    ensures MakeAst("{a,-,c}") == Success([Group(false, "a-c")])
    ensures ParseAlternation("{a,-,c}") == Match(Alternation(LetterBranches("a-c")), "")
    ensures Denotes([Group(false, "a-c")], "b") && !Denotes([Alternation(LetterBranches("a-c"))], "b")
    ensures !Denotes([Group(false, "a-c")], "-") && Denotes([Alternation(LetterBranches("a-c"))], "-")
  {
    DashedList();
    LetterListIsChoiceExactlyWhen("a-c");
    DashedClass();
    hide *;
    ClassTakes("a-c", "b");
    ClassTakes("a-c", "-");
    ChoiceTakes("a-c", "b");
    ChoiceTakes("a-c", "-");
  }

  lemma DashedList()
    ensures ArePlain("a-c") && ',' !in "a-c" && "{" + (Listed("a-c") + "}") == "{a,-,c}"
  {
    var letters := "a-c";
    assert Listed("c") == "c" && letters[1..] == "-c" && "-c"[1..] == "c";
    assert Listed("-c") == "-,c";
    assert Listed(letters) == "a,-,c";
  }

  lemma DashedClass()
    ensures InClass("a-c", 'b') && !InClass("a-c", '-') && 'b' !in "a-c" && '-' in "a-c"
  {
    var letters := "a-c";
    assert letters[3..] == "" && letters[1] == '-';
  }

  /** But it may: `{a,-,b,-}` makes a range of two letters that are listed, and lists a dash at the end. */
  lemma DashMayBeHarmless()
    ensures !NoInnerDash("a-b-") && RangesAreListed("a-b-", RangesOf("a-b-"))
  {
    var letters := "a-b-";
    assert letters[3..] == "-";
    assert letters[1] == '-';
    forall c ensures InClass(letters, c) <==> c in letters {
      assert InClass("-", c) <==> c == '-';
      assert 'a' <= c <= 'b' ==> c == 'a' || c == 'b';
      assert letters[0] == 'a' && letters[2] == 'b' && letters[3] == '-';
    }
    ClassIsListExactlyWhen(letters);
    hide *;
  }

  /** Both `[a-b-c]` and `{a,-,b,-,c}`, whose ranges are listed, are converted to what is no regular expression. */
  lemma DashBehindRangeIsNoRegex(caseSensitive: bool)
    ensures MakeAst("[a-b-c]") == Success([Group(false, "a-b-c")]) && MakeAst("{a,-,b,-,c}") == Success([Group(false, "a-b-c")])
    ensures RangesAreListed("a-b-c", RangesOf("a-b-c")) && !IsSoundClass("a-b-c", false)
    ensures ReadPattern(RenderAst([Group(false, "a-b-c")], caseSensitive)).Failed?
  {
    ListedRanges();
    BracketIsClass("a-b-c");
    RangesBehindEachOther();
    OneClassIsSound("a-b-c");
    hide *;
    GroupIsParsed("a-b-c");
    RenderingKeepsMeaning([Group(false, "a-b-c")], caseSensitive, "");
    LetterListIsChoiceExactlyWhen("a-b-c");
  }

  lemma GroupIsParsed(letters: string)
    requires letters != ""
    ensures IsParsed([Group(false, letters)])
  {}

  lemma {:induction false} BracketIsClosed(inside: string, rest: string)
    requires ']' !in inside
    ensures UpToBracket(inside + "]" + rest) == (inside, "]" + rest)
  {
    var text := inside + "]" + rest;
    if inside == "" {
      assert text == "]" + rest;
    } else {
      BracketIsClosed(inside[1..], rest);
      assert text[0] == inside[0] && text[1..] == inside[1..] + "]" + rest;
      assert inside == [inside[0]] + inside[1..];
    }
  }

  /** What stands between brackets is a class, if it neither begins with an exclamation mark nor holds a bracket. */
  lemma BracketIsClass(letters: string)
    requires letters != "" && letters[0] != '!' && ']' !in letters
    ensures MakeAst("[" + (letters + "]")) == Success([Group(false, letters)])
  {
    var inside := letters + "]";
    var glob := "[" + inside;
    BracketIsClosed(letters, "");
    assert inside + "" == inside && "]" + "" == "]" && "" + letters == letters;
    assert glob[1..] == inside && inside[0..] == inside && inside[0] == letters[0] && "]"[1..] == "";
    hide UpToBracket;
    assert ParseBracket(glob) == Match(Group(false, letters), "");
    OneGroupIsParsed(glob, Group(false, letters));
  }

  lemma OneGroupIsParsed(glob: string, node: Node)
    requires ParseGroup(glob) == Match(node, "")
    ensures MakeAst(glob) == Success([node])
  {
    hide ParseGroup;
    assert ParseNode(glob, false) == Match(node, "");
    NothingToParse();
    hide ParseNode;
    assert [node] + [] == [node];
  }

  lemma OneMoreListed(c: char, more: string)
    requires more != ""
    ensures Listed([c] + more) == [c, ','] + Listed(more)
  {
    assert ([c] + more)[1..] == more;
  }

  lemma ListedRanges()
    ensures "{" + (Listed("a-b-c") + "}") == "{a,-,b,-,c}" && ArePlain("a-b-c")
    ensures "[" + ("a-b-c" + "]") == "[a-b-c]" && ']' !in "a-b-c"
  {
    OneMoreListed('-', "c");
    OneMoreListed('b', "-c");
    OneMoreListed('-', "b-c");
    OneMoreListed('a', "-b-c");
    assert Listed("c") == "c";
    hide Listed;
    assert ['-'] + "c" == "-c" && ['b'] + "-c" == "b-c" && ['-'] + "b-c" == "-b-c" && ['a'] + "-b-c" == "a-b-c";
  }

  lemma RangesBehindEachOther()
    ensures RangesAreListed("a-b-c", RangesOf("a-b-c")) && !IsSoundClass("a-b-c", false)
  {
    var letters := "a-b-c";
    assert letters[3..] == "-c" && "-c"[1..] == "c" && "c"[1..] == "";
    assert letters[0] == 'a' && letters[1] == '-' && letters[2] == 'b' && letters[4] == 'c';
    forall c ensures InClass(letters, c) <==> c in letters {
      assert InClass("", c) == false;
      assert InClass("c", c) <==> c == 'c';
      assert InClass("-c", c) <==> c == '-' || c == 'c';
      assert 'a' <= c <= 'b' ==> c == 'a' || c == 'b';
    }
    ClassIsListExactlyWhen(letters);
    hide RangesAreListed;
    hide InClass;
  }

  lemma ChoiceTakes(letters: string, s: string)
    ensures Denotes([Alternation(LetterBranches(letters))], s) <==> |s| == 1 && s[0] in letters
  {
    var branches := LetterBranches(letters);
    OneNodeDenotes(Alternation(branches), s);
    forall i | 0 <= i < |letters| ensures Denotes(branches[i].expression, s) <==> s == [letters[i]] { LiteralDenotes([letters[i]], s); }
    if |s| == 1 { assert s == [s[0]]; }
    hide Denotes;
  }
}
