/**
 Globs written from expressions and read back (lib/glob2regex, glob_ast.cpp): the text of an
 expression parses as that expression, at any depth of braces.
 */
module GlobPrinting {
  import opened GlobAst
  import opened GlobParser

  // ----- writing -----

  function PrintNode(n: Node): string
    decreases n
  {
    match n
    case Literal(text) => EscapeGlob(text)
    case Wildcard(jolly) => (match jolly case AnyPath => "**" case AnyName => "*" case AnyLetter => "?")
    case Group(negated, characters) =>
      if !negated && Begins(characters, '!') then "{" + Listed(characters) + "}"
      else (if negated then "[!" else "[") + characters + "]"
    case Alternation(alternatives) => "{" + PrintBranches(alternatives) + "}"
  }

  function Print(e: Expression): string
    decreases e
  {
    if e == [] then "" else PrintNode(e[0]) + Print(e[1..])
  }

  function PrintBranches(branches: seq<Branch>): string
    decreases branches
  {
    if branches == [] then ""
    else if |branches| == 1 then Print(branches[0].expression)
    else Print(branches[0].expression) + "," + PrintBranches(branches[1..])
  }

  // ----- what can be written -----

  /** What may stand between brackets: the first character may be one, the others not. */
  predicate AreBracketed(letters: string) { letters != "" && ']' !in letters[1..] }

  /** One character that needs no backslash. */
  predicate IsLetter(e: Expression) { |e| == 1 && e[0].Literal? && |e[0].text| == 1 && e[0].text[0] !in SPECIAL_CHARS }

  /** Written with commas between them these read as a list of single characters; a comma may be one. */
  predicate IsList(branches: seq<Branch>) {
    if branches == [] then false
    else if IsLetter(branches[0].expression) then |branches| == 1 || IsList(branches[1..])
    else branches[0].expression == [] && |branches| > 1 && branches[1].expression == [] && (|branches| == 2 || IsList(branches[2..]))
  }

  /** One part can follow the other: literals would join, and so would stars. */
  predicate CanFollow(a: Node, b: Node) {
    && !(a.Literal? && b.Literal?)
    && (a == Wildcard(AnyName) ==> b != Wildcard(AnyName) && b != Wildcard(AnyPath))
  }

  predicate IsWritable(n: Node, inside: bool)
    decreases n
  {
    match n
    case Literal(text) => text != "" && (inside ==> ',' !in text)
    case Wildcard(_) => true
    case Group(negated, characters) =>
      if !negated && Begins(characters, '!') then ArePlain(characters) else AreBracketed(characters)
    case Alternation(alternatives) =>
      && alternatives != [] && !IsList(alternatives)
      && forall i :: 0 <= i < |alternatives| ==> AreWritable(alternatives[i].expression, true)
  }

  predicate AreWritable(e: Expression, inside: bool)
    decreases e
  {
    && (forall i :: 0 <= i < |e| ==> IsWritable(e[i], inside))
    && (forall i :: 0 <= i < |e| - 1 ==> CanFollow(e[i], e[i + 1]))
  }

  // ----- literals -----

  /** A backslash that stands before no character with a meaning. */
  predicate LoneBackslash(rest: string) { rest != "" && rest[..1] == "\\" && (|rest| == 1 || rest[1] !in "{}[]*\\+? ") }

  /** No part of an expression begins here. */
  predicate StopsAll(rest: string, inside: bool) {
    rest == "" || rest[0] in "}]+ " || LoneBackslash(rest) || (inside && rest[0] == ',')
  }

  /** A literal ends before this. */
  predicate StopsText(rest: string, inside: bool) { StopsAll(rest, inside) || rest[0] in "*?[{" }

  lemma OrdinaryCharacter(c: char, more: string, inside: bool)
    requires c !in SPECIAL_CHARS && (inside ==> c != ',')
    ensures var r := ParseText(more, inside); ParseText([c] + more, inside) == ([c] + r.0, r.1)
  {
    assert ([c] + more)[1..] == more;
  }

  lemma BackslashedCharacter(c: char, more: string, inside: bool)
    requires c in SPECIAL_CHARS
    ensures var r := ParseText(more, inside); ParseText(['\\', c] + more, inside) == ([c] + r.0, r.1)
  {
    assert (['\\', c] + more)[2..] == more;
    assert EndsLiteral('\\', inside);
  }

  lemma EscapedStep(a: string, rest: string)
    requires a != ""
    ensures EscapeGlob(a) + rest == (if a[0] in SPECIAL_CHARS then ['\\', a[0]] else [a[0]]) + (EscapeGlob(a[1..]) + rest)
  {
    hide SPECIAL_CHARS;
  }

  lemma NoTextInFront(rest: string, inside: bool)
    requires StopsText(rest, inside)
    ensures ParseText(rest, inside) == ("", rest)
  {
    assert rest != "" ==> EndsLiteral(rest[0], inside);
    if LoneBackslash(rest) { assert rest[0] == rest[..1][0] == '\\'; }
  }

  lemma {:induction false} TextInFront(a: string, rest: string, inside: bool)
    requires StopsText(rest, inside) && (inside ==> ',' !in a)
    ensures ParseText(EscapeGlob(a) + rest, inside) == (a, rest)
  {
    hide *;
    if a == "" {
      EscapedNothing();
      assert "" + rest == rest;
      NoTextInFront(rest, inside);
    } else {
      assert a[0] in a && (inside ==> ',' !in a[1..]);
      TextInFront(a[1..], rest, inside);
      EscapedStep(a, rest);
      var more := EscapeGlob(a[1..]) + rest;
      if a[0] in SPECIAL_CHARS { BackslashedCharacter(a[0], more, inside); } else { OrdinaryCharacter(a[0], more, inside); }
      assert a == [a[0]] + a[1..];
    }
  }

  lemma EscapedNothing()
    ensures EscapeGlob("") == ""
  {}

  lemma EscapedStarts(a: string, rest: string)
    requires a != ""
    ensures var glob := EscapeGlob(a) + rest;
            !Begins(glob, '[') && !Begins(glob, '{') && !Begins(glob, '*') && !Begins(glob, '?') && glob != ""
  {
    assert (EscapeGlob(a) + rest)[0] == if a[0] in SPECIAL_CHARS then '\\' else a[0];
    assert '[' in SPECIAL_CHARS && '{' in SPECIAL_CHARS && '*' in SPECIAL_CHARS && '?' in SPECIAL_CHARS;
  }

  lemma LiteralIsRead(a: string, rest: string, inside: bool)
    requires a != "" && StopsText(rest, inside) && (inside ==> ',' !in a)
    ensures ParseNode(EscapeGlob(a) + rest, inside) == Match(Literal(a), rest)
  {
    hide ParseNode;
    hide EscapeGlob;
    hide ParseText;
    TextInFront(a, rest, inside);
    EscapedStarts(a, rest);
    NothingButText(EscapeGlob(a) + rest, inside);
  }

  // ----- wildcards and classes -----

  lemma WildcardsAreNoText(text: string, inside: bool)
    requires text != "" && (text[0] == '*' || text[0] == '?')
    ensures ParseNode(text, inside) == ParseJolly(text)
  {
    NoTextInFront(text, inside);
    assert ParseGroup(text) == NoMatch && ParseAlternation(text) == NoMatch && ParseLiteral(text, inside) == NoMatch;
    hide ParseGroup;
    hide ParseAlternation;
    hide ParseLiteral;
  }

  lemma WildcardIsRead(jolly: Jolly, rest: string, inside: bool)
    requires jolly == AnyName ==> !Begins(rest, '*')
    ensures ParseNode(PrintNode(Wildcard(jolly)) + rest, inside) == Match(Wildcard(jolly), rest)
  {
    var text := PrintNode(Wildcard(jolly)) + rest;
    WildcardsAreNoText(text, inside);
    hide ParseNode;
    match jolly
    case AnyPath => assert text[1..][0] == '*' && text[2..] == rest;
    case AnyName => assert text[1..] == rest;
    case AnyLetter => assert text[1..] == rest;
  }

  lemma InsideBrackets(letters: string, rest: string)
    requires AreBracketed(letters)
    ensures var inside := letters + "]" + rest;
            var first := if Begins(inside, ']') then "]" else "";
            |first| <= |inside| && UpToBracket(inside[|first|..]) == (letters[|first|..], "]" + rest)
            && |first| <= |letters| && letters == first + letters[|first|..]
  {
    var inside := letters + "]" + rest;
    assert inside[0] == letters[0];
    hide UpToBracket;
    if letters[0] == ']' {
      assert inside[1..] == letters[1..] + "]" + rest;
      BracketIsClosed(letters[1..], rest);
    } else {
      assert letters == [letters[0]] + letters[1..];
      assert inside[0..] == inside && letters[0..] == letters;
      BracketIsClosed(letters, rest);
    }
  }

  lemma BracketIs(text: string, negated: bool, letters: string, rest: string)
    requires AreBracketed(letters) && (!negated ==> letters[0] != '!')
    requires Begins(text, '[') && text[1..] == (if negated then "!" else "") + (letters + "]" + rest)
    ensures ParseBracket(text) == Match(Group(negated, letters), rest)
  {
    var inside := letters + "]" + rest;
    assert inside[0] == letters[0] && ("]" + rest)[1..] == rest;
    if negated { assert text[2..] == text[1..][1..] == inside; } else { assert text[1..] == inside; }
    InsideBrackets(letters, rest);
    hide UpToBracket;
  }

  lemma ClassIsRead(negated: bool, letters: string, rest: string, inside: bool)
    requires IsWritable(Group(negated, letters), inside)
    ensures ParseNode(PrintNode(Group(negated, letters)) + rest, inside) == Match(Group(negated, letters), rest)
  {
    var text := PrintNode(Group(negated, letters)) + rest;
    if !negated && Begins(letters, '!') {
      assert text == "{" + (Listed(letters) + "}" + rest);
      ListIsClass(letters, rest);
      hide ParseLetterList;
    } else {
      assert text[0] == '[';
      assert text[1..] == (if negated then "!" else "") + (letters + "]" + rest);
      BracketIs(text, negated, letters, rest);
      hide ParseBracket;
    }
  }

  // ----- where nothing begins -----

  lemma NothingIsRead(rest: string, inside: bool)
    requires StopsAll(rest, inside)
    ensures ParseNode(rest, inside) == NoMatch && ParseExpression(rest, inside) == ([], rest)
  {
    if LoneBackslash(rest) { assert rest[0] == rest[..1][0] == '\\'; }
    assert !Begins(rest, '[') && !Begins(rest, '{') && !Begins(rest, '*') && !Begins(rest, '?');
    NoTextInFront(rest, inside);
    NothingButText(rest, inside);
    assert ParseLiteral(rest, inside) == NoMatch;
    hide ParseNode;
    hide StopsAll;
  }

  // ----- lists of single characters -----

  /** The rule for single characters takes all up to a closing brace. */
  predicate ReadsAsList(text: string) { ParseLetters(text).Match? && Begins(ParseLetters(text).rest, '}') }

  lemma NoListInFront(text: string)
    requires text == "" || text[0] in SPECIAL_CHARS || (|text| >= 2 && text[1] != ',' && text[1] != '}')
    ensures !ReadsAsList(text)
  {}

  lemma LastOfList(c: char, rest: string)
    requires c !in SPECIAL_CHARS
    ensures ReadsAsList([c] + ("}" + rest))
  {
    assert ([c] + ("}" + rest))[1..] == "}" + rest;
  }

  lemma MoreOfList(c: char, more: string)
    requires c !in SPECIAL_CHARS
    ensures ReadsAsList([c] + ("," + more)) <==> ReadsAsList(more)
  {
    var text := [c] + ("," + more);
    assert text[1..] == "," + more && text[2..] == more;
  }

  lemma OtherStarts(n: Node, rest: string)
    requires !n.Literal?
    ensures var text := PrintNode(n) + rest; text != "" && text[0] in "*?[{" && (text[0] == '*' ==> n.Wildcard? && n.jolly != AnyLetter)
  {}

  lemma FirstEscaped(t: string, rest: string)
    requires t != ""
    ensures var text := EscapeGlob(t) + rest; text != "" && text[0] == if t[0] in SPECIAL_CHARS then '\\' else t[0]
  {}

  lemma CommasAreOrdinary()
    ensures ',' !in SPECIAL_CHARS && forall c :: c in "*?[{}\\" ==> c in SPECIAL_CHARS
  {}

  /** What makes the start of a text no member of a list. */
  predicate IsNoMember(text: string) { text != "" && (text[0] in SPECIAL_CHARS || (|text| >= 2 && text[1] != ',' && text[1] != '}')) }

  lemma SecondCharacter(t: string, rest: string)
    requires |t| > 1 && t[0] !in SPECIAL_CHARS && t[1] != ','
    ensures IsNoMember(EscapeGlob(t) + rest)
  {
    FirstEscaped(t[1..], rest);
    EscapedStep(t, rest);
    assert '}' in SPECIAL_CHARS;
    assert (EscapeGlob(t) + rest)[1] == (EscapeGlob(t[1..]) + rest)[0];
    hide EscapeGlob;
    hide SPECIAL_CHARS;
  }

  lemma OneCharacter(c: char, rest: string)
    requires c !in SPECIAL_CHARS
    ensures EscapeGlob([c]) + rest == [c] + rest
  {
    assert [c][1..] == "";
  }

  lemma LiteralStarts(t: string, rest: string)
    requires t != "" && t[0] != ',' && (|t| > 1 ==> t[1] != ',')
    ensures var text := EscapeGlob(t) + rest; text != "" && text[0] != ',' && text[0] != '}'
    ensures |t| == 1 && t[0] !in SPECIAL_CHARS ==> EscapeGlob(t) + rest == t + rest
    ensures t[0] in SPECIAL_CHARS || |t| > 1 ==> IsNoMember(EscapeGlob(t) + rest)
  {
    assert '}' in SPECIAL_CHARS && '\\' in SPECIAL_CHARS;
    FirstEscaped(t, rest);
    hide SPECIAL_CHARS;
    hide EscapeGlob;
    if t[0] !in SPECIAL_CHARS {
      if |t| > 1 {
        SecondCharacter(t, rest);
      } else {
        OneCharacter(t[0], rest);
        assert t == [t[0]];
      }
    }
  }

  lemma PrintStep(e: Expression, rest: string)
    requires e != []
    ensures Print(e) + rest == PrintNode(e[0]) + (Print(e[1..]) + rest)
  {
    hide PrintNode;
  }

  lemma WritableStep(e: Expression, inside: bool)
    requires e != [] && AreWritable(e, inside)
    ensures IsWritable(e[0], inside) && AreWritable(e[1..], inside)
    ensures |e| > 1 ==> CanFollow(e[0], e[1]) && e[1..][0] == e[1]
  {
    hide IsWritable;
    hide CanFollow;
  }

  lemma WritableLiteral(n: Node)
    requires n.Literal? && IsWritable(n, true)
    ensures n.text != "" && n.text[0] != ',' && (|n.text| > 1 ==> n.text[1] != ',')
  {
    assert n.text[0] in n.text && (|n.text| > 1 ==> n.text[1] in n.text);
  }

  /** What a written expression begins with. */
  lemma Starts(e: Expression, rest: string)
    requires e != [] && AreWritable(e, true)
    ensures var text := Print(e) + rest; text != "" && text[0] != ',' && text[0] != '}'
    ensures IsLetter(e) ==> Print(e) + rest == e[0].text + rest
    ensures !IsLetter(e) ==> IsNoMember(Print(e) + rest)
  {
    CommasAreOrdinary();
    hide SPECIAL_CHARS;
    hide AreWritable;
    hide IsWritable;
    hide Print;
    hide PrintNode;
    var n, more := e[0], Print(e[1..]) + rest;
    PrintStep(e, rest);
    WritableStep(e, true);
    if n.Literal? {
      WritableLiteral(n);
      LiteralPrinted(n);
      LiteralStarts(n.text, more);
      if |e| > 1 {
        OtherStarts(e[1], Print(e[1..][1..]) + rest);
        PrintStep(e[1..], rest);
        if |n.text| == 1 && n.text[0] !in SPECIAL_CHARS { LetterThenOther(n.text, more); }
      } else {
        NothingPrinted();
        assert e[1..] == [] && more == "" + rest == rest;
      }
    } else {
      OtherStarts(n, more);
    }
  }

  lemma LetterThenOther(t: string, more: string)
    requires |t| == 1 && more != "" && more[0] in "*?[{"
    ensures IsNoMember(t + more)
  {
    assert (t + more)[1] == more[0];
  }

  lemma LiteralPrinted(n: Node)
    requires n.Literal?
    ensures PrintNode(n) == EscapeGlob(n.text)
  {}

  lemma NothingPrinted()
    ensures Print([]) == ""
  {}

  lemma BranchesStepPrinted(branches: seq<Branch>, rest: string)
    requires branches != []
    ensures PrintBranches(branches) + "}" + rest
         == Print(branches[0].expression)
            + if |branches| == 1 then "}" + rest else "," + (PrintBranches(branches[1..]) + "}" + rest)
  {
    hide Print;
  }

  lemma WritableBranches(branches: seq<Branch>)
    requires branches != [] && BranchesAreWritable(branches)
    ensures AreWritable(branches[0].expression, true) && BranchesAreWritable(branches[1..])
  {
    hide AreWritable;
  }

  predicate BranchesAreWritable(branches: seq<Branch>) {
    forall i :: 0 <= i < |branches| ==> AreWritable(branches[i].expression, true)
  }

  /** Branches with commas between them read as a list of single characters exactly if they are one. */
  lemma {:induction false} ListExactlyWhen(branches: seq<Branch>, rest: string)
    requires branches != [] && BranchesAreWritable(branches)
    ensures ReadsAsList(PrintBranches(branches) + "}" + rest) <==> IsList(branches)
    decreases |branches|
  {
    CommasAreOrdinary();
    hide *;
    WritableBranches(branches);
    BranchesStepPrinted(branches, rest);
    IsListStep(branches);
    var e, others := branches[0].expression, branches[1..];
    var more := PrintBranches(others) + "}" + rest;
    var behind := if |branches| == 1 then "}" + rest else "," + more;
    if others != [] { ListExactlyWhen(others, rest); }
    if e == [] {
      NothingPrinted();
      assert "" + behind == behind;
      if others == [] {
        NoListInFront(behind);
      } else {
        WritableBranches(others);
        BranchesStepPrinted(others, rest);
        if others[0].expression == [] {
          if |branches| > 2 {
            assert others[1..] == branches[2..];
            ListExactlyWhen(branches[2..], rest);
          }
          EmptyThenEmpty(branches, rest);
        } else {
          var after := if |others| == 1 then "}" + rest else "," + (PrintBranches(others[1..]) + "}" + rest);
          Starts(others[0].expression, after);
          assert behind[1] == more[0];
          NoListInFront(behind);
        }
      }
    } else {
      Starts(e, behind);
      if IsLetter(e) {
        LetterIs(e);
        if others == [] { LastOfList(e[0].text[0], rest); } else { MoreOfList(e[0].text[0], more); }
      } else {
        NoMemberIs(Print(e) + behind);
        NoListInFront(Print(e) + behind);
      }
    }
  }

  lemma LetterIs(e: Expression)
    requires IsLetter(e)
    ensures e != [] && e[0].Literal? && |e[0].text| == 1 && e[0].text[0] !in SPECIAL_CHARS && e[0].text == [e[0].text[0]]
  {}

  lemma NoMemberIs(text: string)
    requires IsNoMember(text)
    ensures text[0] in SPECIAL_CHARS || (|text| >= 2 && text[1] != ',' && text[1] != '}')
  {}

  lemma IsListStep(branches: seq<Branch>)
    requires branches != []
    ensures IsLetter(branches[0].expression) ==> (IsList(branches) <==> |branches| == 1 || IsList(branches[1..]))
    ensures branches[0].expression == [] ==>
              !IsLetter(branches[0].expression)
              && (IsList(branches) <==> |branches| > 1 && branches[1].expression == [] && (|branches| == 2 || IsList(branches[2..])))
    ensures branches[0].expression != [] && !IsLetter(branches[0].expression) ==> !IsList(branches)
  {}

  /** Two branches without text are a comma, and what is behind the next comma decides. */
  lemma {:induction false} EmptyThenEmpty(branches: seq<Branch>, rest: string)
    requires |branches| > 1 && BranchesAreWritable(branches) && branches[0].expression == [] == branches[1].expression
    requires |branches| > 2 ==> (ReadsAsList(PrintBranches(branches[2..]) + "}" + rest) <==> IsList(branches[2..]))
    ensures ReadsAsList(PrintBranches(branches) + "}" + rest) <==> |branches| == 2 || IsList(branches[2..])
  {
    CommasAreOrdinary();
    hide *;
    var others := branches[1..];
    NothingPrinted();
    BranchesStepPrinted(branches, rest);
    BranchesStepPrinted(others, rest);
    assert others[1..] == branches[2..];
    var more := PrintBranches(others) + "}" + rest;
    assert PrintBranches(branches) + "}" + rest == [','] + more;
    if |branches| == 2 {
      assert more == "}" + rest;
      LastOfList(',', rest);
    } else {
      assert more == "," + (PrintBranches(branches[2..]) + "}" + rest);
      MoreOfList(',', PrintBranches(branches[2..]) + "}" + rest);
    }
  }

  // ----- reading what is written -----

  /** What may stand behind a part for it to end there. */
  predicate MayFollow(n: Node, rest: string, inside: bool) {
    && (n.Literal? ==> StopsText(rest, inside))
    && (n == Wildcard(AnyName) ==> !Begins(rest, '*'))
  }

  lemma NextMayFollow(e: Expression, rest: string, inside: bool)
    requires e != [] && AreWritable(e, inside) && StopsAll(rest, inside)
    ensures MayFollow(e[0], Print(e[1..]) + rest, inside)
  {
    hide PrintNode;
    hide IsWritable;
    var more := Print(e[1..]) + rest;
    if |e| == 1 {
      NothingPrinted();
      assert e[1..] == [] && more == rest;
    } else {
      assert CanFollow(e[0], e[1]) && IsWritable(e[1], inside);
      PrintStep(e[1..], rest);
      hide Print;
      var behind := Print(e[1..][1..]) + rest;
      hide StopsAll;
      if e[1].Literal? {
        LiteralPrinted(e[1]);
        WritableText(e[1], inside);
        EscapedStarts(e[1].text, behind);
      } else {
        OtherStarts(e[1], behind);
      }
    }
  }

  lemma WritableText(n: Node, inside: bool)
    requires n.Literal? && IsWritable(n, inside)
    ensures n.text != "" && (inside ==> ',' !in n.text)
  {}

  lemma ExpressionStep(text: string, node: Node, rest: string, inside: bool)
    requires ParseNode(text, inside) == Match(node, rest)
    ensures ParseExpression(text, inside) == (var more := ParseExpression(rest, inside); ([node] + more.0, more.1))
  {
    hide ParseNode;
  }

  /** A written expression is read as it is, as far as no part can begin; inside of braces, too. */
  lemma {:induction false} ExpressionIsRead(e: Expression, rest: string, inside: bool)
    requires AreWritable(e, inside) && StopsAll(rest, inside)
    ensures ParseExpression(Print(e) + rest, inside) == (e, rest)
    decreases e
  {
    hide *;
    NothingPrinted();
    if e == [] {
      assert "" + rest == rest;
      NothingIsRead(rest, inside);
    } else {
      PrintStep(e, rest);
      WritableStep(e, inside);
      NextMayFollow(e, rest, inside);
      NodeIsRead(e[0], Print(e[1..]) + rest, inside);
      ExpressionIsRead(e[1..], rest, inside);
      ExpressionStep(Print(e) + rest, e[0], Print(e[1..]) + rest, inside);
      assert e == [e[0]] + e[1..];
    }
  }

  lemma {:induction false} NodeIsRead(n: Node, rest: string, inside: bool)
    requires IsWritable(n, inside) && MayFollow(n, rest, inside)
    ensures ParseNode(PrintNode(n) + rest, inside) == Match(n, rest)
    decreases n
  {
    match n
    case Literal(text) => LiteralIsRead(text, rest, inside);
    case Wildcard(jolly) => WildcardIsRead(jolly, rest, inside);
    case Group(negated, characters) => ClassIsRead(negated, characters, rest, inside);
    case Alternation(alternatives) =>
      BranchesAreRead(alternatives, rest);
      ChoiceIsRead(alternatives, rest, inside);
  }

  lemma {:induction false} BranchesAreRead(branches: seq<Branch>, rest: string)
    requires branches != [] && BranchesAreWritable(branches)
    ensures ParseBranches(PrintBranches(branches) + "}" + rest) == (branches, "}" + rest)
    decreases branches
  {
    hide *;
    WritableBranches(branches);
    BranchesStepPrinted(branches, rest);
    var e, others := branches[0].expression, branches[1..];
    var behind := if |branches| == 1 then "}" + rest else "," + (PrintBranches(others) + "}" + rest);
    BranchEnds(behind);
    ExpressionIsRead(e, behind, true);
    BranchesStep(Print(e) + behind, e, behind);
    assert branches == [Branch(e)] + others;
    BeginsIs(behind, ',');
    if |branches| > 1 {
      BranchesAreRead(others, rest);
      assert behind[1..] == PrintBranches(others) + "}" + rest;
    } else {
      assert branches == [Branch(e)];
    }
  }

  lemma BeginsIs(text: string, c: char)
    ensures Begins(text, c) <==> text != "" && text[0] == c
  {}

  lemma BranchEnds(behind: string)
    requires behind != "" && (behind[0] == ',' || behind[0] == '}')
    ensures StopsAll(behind, true)
  {}

  lemma ChoiceIsRead(branches: seq<Branch>, rest: string, inside: bool)
    requires IsWritable(Alternation(branches), inside)
    requires ParseBranches(PrintBranches(branches) + "}" + rest) == (branches, "}" + rest)
    ensures ParseNode(PrintNode(Alternation(branches)) + rest, inside) == Match(Alternation(branches), rest)
  {
    var text, within := PrintNode(Alternation(branches)) + rest, PrintBranches(branches) + "}" + rest;
    assert text == "{" + within && text[1..] == within && ("}" + rest)[1..] == rest;
    ListExactlyWhen(branches, rest);
    hide ParseLetters;
    hide ParseBranches;
    assert ParseGroup(text) == NoMatch;
    assert ParseAlternation(text) == Match(Alternation(branches), rest);
    AlternationNode(text, inside);
  }

  lemma AlternationNode(text: string, inside: bool)
    requires ParseGroup(text) == NoMatch && ParseAlternation(text).Match?
    ensures ParseNode(text, inside) == ParseAlternation(text)
  {
    hide ParseGroup;
    hide ParseAlternation;
  }

  /** The text written for an expression is parsed as that expression. */
  lemma WrittenIsParsed(e: Expression)
    requires AreWritable(e, false)
    ensures MakeAst(Print(e)) == Success(e)
  {
    assert Print(e) + "" == Print(e);
    assert StopsAll("", false);
    ExpressionIsRead(e, "", false);
    hide ParseExpression;
  }

  /**
   What begins no part is a syntax error at its place: a closing bracket or brace, a plus, a space, or a
   backslash that does not stand before one of the characters that have a meaning.
   */
  lemma StrayIsError(e: Expression, rest: string, caseSensitive: bool)
    requires AreWritable(e, false) && rest != "" && (rest[0] in "}]+ " || LoneBackslash(rest))
    ensures Convert(Print(e) + rest, caseSensitive) == SyntaxError(|rest|)
  {
    ExpressionIsRead(e, rest, false);
    hide ParseExpression;
  }

  // ----- all that is read can be written -----

  /** Text is read as far as it goes. */
  lemma {:induction false} TextIsMaximal(text: string, inside: bool)
    ensures var r := ParseText(text, inside); ParseText(r.1, inside) == ("", r.1) && (inside ==> ',' !in r.0)
  {
    if text != "" && !EndsLiteral(text[0], inside) {
      TextIsMaximal(text[1..], inside);
    } else if |text| >= 2 && text[0] == '\\' && text[1] in SPECIAL_CHARS {
      TextIsMaximal(text[2..], inside);
      assert ',' !in SPECIAL_CHARS;
    }
  }

  lemma {:induction false} BracketEnds(text: string)
    ensures var r := UpToBracket(text); ']' !in r.0 && text == r.0 + r.1
  {
    if text != "" && text[0] != ']' { BracketEnds(text[1..]); }
  }

  lemma BracketIsWritable(text: string, inside: bool)
    requires ParseBracket(text).Match?
    ensures IsWritable(ParseBracket(text).node, inside)
  {
    var negated := Begins(text[1..], '!');
    var within := if negated then text[2..] else text[1..];
    var first := if Begins(within, ']') then "]" else "";
    BracketEnds(within[|first|..]);
    var letters := UpToBracket(within[|first|..]).0;
    assert within[0..] == within;
    hide UpToBracket;
    assert ParseBracket(text).node == Group(negated, first + letters);
    if first == "]" {
      assert (first + letters)[1..] == letters;
    } else {
      assert first + letters == letters && letters[0] == within[0];
      assert letters == [letters[0]] + letters[1..];
    }
  }

  lemma ListIsWritable(text: string, inside: bool)
    requires ParseLetterList(text).Match?
    ensures IsWritable(ParseLetterList(text).node, inside)
  {
    ReadIsListed(text[1..]);
    var letters := ParseLetters(text[1..]).node;
    assert ArePlain(letters) && letters != "";
    assert ']' in SPECIAL_CHARS;
    assert AreBracketed(letters) by {
      forall i | 0 <= i < |letters[1..]| ensures letters[1..][i] != ']' { assert letters[i + 1] !in SPECIAL_CHARS; }
    }
    hide ParseLetters;
  }

  lemma LiteralIsWritable(text: string, inside: bool)
    requires ParseLiteral(text, inside).Match?
    ensures IsWritable(ParseLiteral(text, inside).node, inside) && ParseLiteral(text, inside).node.Literal?
    ensures ParseText(ParseLiteral(text, inside).rest, inside).0 == ""
  {
    TextIsMaximal(text, inside);
    hide ParseText;
  }

  lemma JollyIsWritable(text: string, inside: bool)
    requires ParseJolly(text).Match?
    ensures IsWritable(ParseJolly(text).node, inside) && ParseJolly(text).node.Wildcard?
    ensures ParseJolly(text).node == Wildcard(AnyName) ==> !Begins(ParseJolly(text).rest, '*')
  {}

  /** One letter read from a text is its first character. */
  lemma LetterIsFirst(text: string)
    requires IsLetter(ParseExpression(text, true).0)
    ensures var r := ParseExpression(text, true); text != "" && r.0[0].text == [text[0]] && r.1 == text[1..] && text[0] !in SPECIAL_CHARS
  {
    var node := ParseNode(text, true);
    var c := node.node.text[0];
    NodeIsLiteral(text, true);
    assert node.node.text == [c];
    assert ParseText(text, true) == ([c], node.rest);
    OneCharacterRead(text, c);
    hide ParseNode;
    assert ParseExpression(node.rest, true).0 == [];
  }

  lemma NodeIsLiteral(text: string, inside: bool)
    requires ParseNode(text, inside).Match? && ParseNode(text, inside).node.Literal?
    ensures ParseNode(text, inside) == ParseLiteral(text, inside)
  {
    hide ParseBracket;
    hide ParseLetterList;
    hide ParseLiteral;
    hide ParseBranches;
    GroupIsGroup(text);
  }

  lemma GroupIsGroup(text: string)
    ensures ParseBracket(text).Match? ==> ParseBracket(text).node.Group?
    ensures ParseLetterList(text).Match? ==> ParseLetterList(text).node.Group?
    ensures ParseAlternation(text).Match? ==> ParseAlternation(text).node.Alternation?
    ensures ParseJolly(text).Match? ==> ParseJolly(text).node.Wildcard?
  {
    hide ParseBranches;
    hide UpToBracket;
    hide ParseLetters;
  }

  lemma OneCharacterRead(text: string, c: char)
    requires ParseText(text, true).0 == [c] && c !in SPECIAL_CHARS
    ensures text != "" && text[0] == c && ParseText(text, true).1 == text[1..]
  {
    var r := ParseText(text, true);
    EscapedIsSpecial(text);
    assert r.0[0] == c;
    if text != "" && !EndsLiteral(text[0], true) {
      var more := ParseText(text[1..], true);
      assert r.0[0] == text[0] && |more.0| == 0;
      NoTextRead(text[1..]);
    }
  }

  lemma EscapedIsSpecial(text: string)
    ensures var r := ParseText(text, true).0; r != "" && EndsLiteral(text[0], true) ==> r[0] in SPECIAL_CHARS
  {}

  lemma NoTextRead(text: string)
    ensures ParseText(text, true).0 == "" ==> ParseText(text, true).1 == text
  {}

  /** Branches that are a list of single characters are read from such a list only. */
  lemma {:induction false} ListIsReadAsList(text: string)
    requires var r := ParseBranches(text); IsList(r.0) && Begins(r.1, '}')
    ensures ReadsAsList(text)
    decreases |text|
  {
    CommasAreOrdinary();
    hide *;
    var first := ParseExpression(text, true);
    var r := ParseBranches(text);
    BranchesStep(text, first.0, first.1);
    IsListStep(r.0);
    BeginsIs(first.1, ',');
    BeginsIs(r.1, '}');
    if IsLetter(first.0) {
      LetterIsFirst(text);
      var c, rest := text[0], text[1..];
      assert text == [c] + rest;
      if |r.0| == 1 {
        assert rest == "}" + rest[1..];
        LastOfList(c, rest[1..]);
      } else {
        assert rest == "," + rest[1..];
        ListIsReadAsList(rest[1..]);
        MoreOfList(c, rest[1..]);
      }
    } else {
      EmptyBranches(text);
      BeginsIs(text, ',');
      BeginsIs(text[1..], ',');
      assert text == [','] + text[1..];
      if |r.0| == 2 {
        assert text[1..] == "}" + text[2..];
        LastOfList(',', text[2..]);
      } else {
        assert text[1..] == "," + text[2..];
        ListIsReadAsList(text[2..]);
        MoreOfList(',', text[2..]);
      }
    }
  }

  /** Two empty branches in front are two commas, or a comma and the end. */
  lemma EmptyBranches(text: string)
    requires var r := ParseBranches(text).0; |r| > 1 && r[0].expression == [] == r[1].expression
    ensures var r := ParseBranches(text);
            && Begins(text, ',')
            && (|r.0| == 2 ==> text[1..] == r.1)
            && (|r.0| > 2 ==> Begins(text[1..], ',') && ParseBranches(text[2..]) == (r.0[2..], r.1))
  {
    var first, r := ParseExpression(text, true), ParseBranches(text).0;
    NothingReadIsText(text);
    BranchesStep(text, first.0, first.1);
    hide ParseExpression;
    hide ParseBranches;
    hide Begins;
    var others := ParseBranches(text[1..]).0;
    assert first.1 == text && Begins(text, ',') && r == [Branch(first.0)] + others;
    assert others[0] == r[1];
    NothingReadIsText(text[1..]);
    var second := ParseExpression(text[1..], true);
    BranchesStep(text[1..], second.0, second.1);
    if |r| > 2 { assert r[2..] == others[1..]; }
  }

  lemma NothingReadIsText(text: string)
    ensures ParseExpression(text, true).0 == [] ==> ParseExpression(text, true).1 == text
  {}

  lemma NextNode(text: string, node: Node, rest: string, inside: bool)
    requires ParseNode(text, inside) == Match(node, rest) && ParseNode(rest, inside).Match?
    ensures CanFollow(node, ParseNode(rest, inside).node)
  {
    var next := ParseNode(rest, inside).node;
    if node.Literal? && next.Literal? {
      NodeIsLiteral(text, inside);
      NodeIsLiteral(rest, inside);
      LiteralIsWritable(text, inside);
    } else if node == Wildcard(AnyName) && next.Wildcard? {
      NodeIsJolly(text, inside);
      NodeIsJolly(rest, inside);
      JollyIsWritable(text, inside);
      hide ParseNode;
    }
  }

  lemma NodeIsJolly(text: string, inside: bool)
    requires ParseNode(text, inside).Match? && ParseNode(text, inside).node.Wildcard?
    ensures ParseNode(text, inside) == ParseJolly(text)
  {
    hide ParseBracket;
    hide ParseLetterList;
    hide ParseBranches;
    hide ParseText;
    GroupIsGroup(text);
  }

  /** Whatever is read can be written. */
  lemma {:induction false} ReadIsWritable(text: string, inside: bool)
    ensures AreWritable(ParseExpression(text, inside).0, inside)
    decreases |text|, 2
  {
    hide *;
    var node := ParseNode(text, inside);
    if node.Match? {
      NodeReadIsWritable(text, inside);
      ReadIsWritable(node.rest, inside);
      ExpressionStep(text, node.node, node.rest, inside);
      var more := ParseExpression(node.rest, inside).0;
      if more != [] {
        FirstIsRead(node.rest, inside);
        NextNode(text, node.node, node.rest, inside);
      }
      WritableInFront(node.node, more, inside);
    } else {
      NothingIsWritable(text, inside);
    }
  }

  lemma FirstIsRead(text: string, inside: bool)
    requires ParseExpression(text, inside).0 != []
    ensures ParseNode(text, inside).Match? && ParseExpression(text, inside).0[0] == ParseNode(text, inside).node
  {
    hide ParseNode;
  }

  lemma NothingIsWritable(text: string, inside: bool)
    requires ParseNode(text, inside).NoMatch?
    ensures ParseExpression(text, inside).0 == [] && AreWritable([], inside)
  {
    hide ParseNode;
  }

  lemma WritableInFront(n: Node, e: Expression, inside: bool)
    requires IsWritable(n, inside) && AreWritable(e, inside) && (e != [] ==> CanFollow(n, e[0]))
    ensures AreWritable([n] + e, inside)
  {
    hide IsWritable;
    hide CanFollow;
  }

  lemma {:induction false} NodeReadIsWritable(text: string, inside: bool)
    requires ParseNode(text, inside).Match?
    ensures IsWritable(ParseNode(text, inside).node, inside)
    decreases |text|, 1
  {
    if ParseBracket(text).Match? {
      BracketIsWritable(text, inside);
    } else if ParseLetterList(text).Match? {
      ListIsWritable(text, inside);
    } else if ParseAlternation(text).Match? {
      BranchesReadAreWritable(text[1..]);
      NoListRead(text);
    } else if ParseLiteral(text, inside).Match? {
      LiteralIsWritable(text, inside);
    } else {
      JollyIsWritable(text, inside);
    }
    hide IsWritable;
    hide ParseBracket;
    hide ParseLetterList;
    hide ParseAlternation;
    hide ParseLiteral;
    hide ParseJolly;
  }

  lemma {:induction false} BranchesReadAreWritable(text: string)
    ensures BranchesAreWritable(ParseBranches(text).0)
    decreases |text|, 3
  {
    hide *;
    var first := ParseExpression(text, true);
    ReadIsWritable(text, true);
    BranchesStep(text, first.0, first.1);
    BeginsIs(first.1, ',');
    if Begins(first.1, ',') {
      BranchesReadAreWritable(first.1[1..]);
      BranchInFront(first.0, ParseBranches(first.1[1..]).0);
    } else {
      BranchInFront(first.0, []);
    }
  }

  lemma BranchInFront(e: Expression, branches: seq<Branch>)
    requires AreWritable(e, true) && (branches == [] || BranchesAreWritable(branches))
    ensures BranchesAreWritable([Branch(e)] + branches) && [Branch(e)] + [] == [Branch(e)]
  {
    hide AreWritable;
  }

  lemma NoListRead(text: string)
    requires ParseLetterList(text).NoMatch? && ParseAlternation(text).Match?
    requires BranchesAreWritable(ParseBranches(text[1..]).0)
    ensures IsWritable(ParseAlternation(text).node, true) && IsWritable(ParseAlternation(text).node, false)
  {
    var branches := ParseBranches(text[1..]);
    assert !ReadsAsList(text[1..]);
    if IsList(branches.0) && Begins(branches.1, '}') { ListIsReadAsList(text[1..]); }
    hide ParseBranches;
    hide ParseLetters;
  }

  /** Exactly these expressions are made by the parser, of whatever text. */
  lemma WritableExactlyWhen(e: Expression)
    ensures AreWritable(e, false) <==> exists glob :: MakeAst(glob) == Success(e)
  {
    hide AreWritable;
    hide Print;
    if AreWritable(e, false) { WrittenIsParsed(e); }
    forall glob | MakeAst(glob) == Success(e) ensures AreWritable(e, false) {
      ReadIsWritable(glob, false);
      hide ParseExpression;
    }
  }

  /** So every glob can be written in one way, from what it is parsed as, without another meaning. */
  lemma WrittenAgain(glob: string, caseSensitive: bool)
    requires MakeAst(glob).Success?
    ensures MakeAst(Print(MakeAst(glob).expression)) == MakeAst(glob)
    ensures Convert(Print(MakeAst(glob).expression), caseSensitive) == Convert(glob, caseSensitive)
  {
    hide Print;
    hide AreWritable;
    ReadIsWritable(glob, false);
    WrittenIsParsed(MakeAst(glob).expression);
    hide ParseExpression;
  }
}
