/**
 What globs find (lib/glob2regex), by their text: wildcards, classes and choices between literal
 texts, and text that needs no backslash.
 */
module GlobMeaning {
  import opened GlobAst
  import opened GlobParser
  import opened GlobPrinting

  predicate EndsWith(s: string, t: string) { |t| <= |s| && s[|s| - |t|..] == t }

  // ----- a literal, something, and a literal -----

  lemma LiteralFirst(a: string, e: Expression, t: string)
    ensures Denotes([Literal(a)] + e, t) <==> |a| <= |t| && t[..|a|] == a && Denotes(e, t[|a|..])
  {
    var all := [Literal(a)] + e;
    assert all[0] == Literal(a) && all[1..] == e;
    if k :| 0 <= k <= |t| && DenotesNode(all[0], t[..k]) && Denotes(all[1..], t[k..]) { assert t[..k] == a && k == |a|; }
    if |a| <= |t| && t[..|a|] == a && Denotes(e, t[|a|..]) {
      assert DenotesNode(all[0], t[..|a|]) && Denotes(all[1..], t[|a|..]);
    }
  }

  lemma PartBeforeLiteral(node: Node, b: string, u: string)
    ensures Denotes([node, Literal(b)], u) <==> exists x :: DenotesNode(node, x) && u == x + b
  {
    var two := [node, Literal(b)];
    assert two[0] == node && two[1..] == [Literal(b)];
    hide DenotesNode;
    if j :| 0 <= j <= |u| && DenotesNode(two[0], u[..j]) && Denotes(two[1..], u[j..]) {
      LiteralDenotes(b, u[j..]);
      assert DenotesNode(node, u[..j]) && u == u[..j] + b;
    }
    forall x | DenotesNode(node, x) && u == x + b ensures Denotes(two, u) {
      LiteralDenotes(b, u[|x|..]);
      assert u[..|x|] == x && u[|x|..] == b;
      assert DenotesNode(two[0], u[..|x|]) && Denotes(two[1..], u[|x|..]);
    }
  }

  lemma MiddleDenotes(a: string, node: Node, b: string, t: string)
    ensures Denotes([Literal(a), node, Literal(b)], t) <==> exists x :: DenotesNode(node, x) && t == a + x + b
  {
    hide *;
    assert [Literal(a)] + [node, Literal(b)] == [Literal(a), node, Literal(b)];
    LiteralFirst(a, [node, Literal(b)], t);
    if |a| <= |t| && t[..|a|] == a {
      PartBeforeLiteral(node, b, t[|a|..]);
      assert t == a + t[|a|..];
      forall x ensures t == a + x + b <==> t[|a|..] == x + b {
        assert a + x + b == a + (x + b) && (a + (x + b))[|a|..] == x + b;
      }
    } else {
      forall x ensures t != a + x + b { assert (a + x + b)[..|a|] == a; }
    }
  }

  lemma MiddleEnds(a: string, node: Node, b: string, s: string)
    ensures EndsIn([Literal(a), node, Literal(b)], s) <==> exists x :: DenotesNode(node, x) && EndsWith(s, a + x + b)
  {
    var all := [Literal(a), node, Literal(b)];
    hide Denotes;
    hide DenotesNode;
    if k :| 0 <= k <= |s| && Denotes(all, s[k..]) {
      MiddleDenotes(a, node, b, s[k..]);
      var x :| DenotesNode(node, x) && s[k..] == a + x + b;
      assert EndsWith(s, a + x + b);
    }
    forall x | DenotesNode(node, x) && EndsWith(s, a + x + b) ensures EndsIn(all, s) {
      var k := |s| - |a + x + b|;
      assert s[k..] == a + x + b;
      MiddleDenotes(a, node, b, s[k..]);
    }
  }

  lemma MiddleIsSound(a: string, node: Node, b: string)
    ensures IsSound([Literal(a), node, Literal(b)]) <==> IsSoundNode(node)
  {
    var all := [Literal(a), node, Literal(b)];
    assert all[0] == Literal(a) && all[1] == node && all[2] == Literal(b);
  }

  lemma MiddleIsPrinted(a: string, node: Node, b: string)
    ensures Print([Literal(a), node, Literal(b)]) == EscapeGlob(a) + PrintNode(node) + EscapeGlob(b)
  {
    hide *;
    var all := [Literal(a), node, Literal(b)];
    assert all[1..] == [node, Literal(b)] && all[1..][1..] == [Literal(b)] && all[1..][1..][1..] == [];
    NothingPrinted();
    LiteralPrinted(Literal(a));
    LiteralPrinted(Literal(b));
    PrintStep(all, "");
    PrintStep(all[1..], "");
    PrintStep(all[1..][1..], "");
    assert Print(all) + "" == Print(all);
  }

  lemma MiddleIsWritable(a: string, node: Node, b: string)
    requires a != "" && b != "" && !node.Literal? && IsWritable(node, false)
    ensures AreWritable([Literal(a), node, Literal(b)], false)
  {
    var all := [Literal(a), node, Literal(b)];
    assert all[0] == Literal(a) && all[1] == node && all[2] == Literal(b);
    assert IsWritable(all[0], false) && IsWritable(all[2], false);
    hide IsWritable;
  }

  /** What one part between two literals finds, if its regular expression is one. */
  lemma MiddleFinds(a: string, node: Node, b: string, caseSensitive: bool, s: string)
    requires a != "" && b != "" && !node.Literal? && IsWritable(node, false)
    ensures GlobFinds(EscapeGlob(a) + PrintNode(node) + EscapeGlob(b), caseSensitive, s)
       <==> IsSoundNode(node) && exists x :: DenotesNode(node, x) && EndsWith(s, a + x + b)
  {
    hide *;
    var all := [Literal(a), node, Literal(b)];
    MiddleIsPrinted(a, node, b);
    MiddleIsWritable(a, node, b);
    WrittenIsParsed(all);
    MiddleIsSound(a, node, b);
    MiddleEnds(a, node, b, s);
    ConvertKeepsMeaning(Print(all), caseSensitive, s);
  }

  // ----- wildcards -----

  /** `*` finds whatever has no slash in it. */
  lemma StarFinds(a: string, b: string, caseSensitive: bool, s: string)
    requires a != "" && b != ""
    ensures GlobFinds(EscapeGlob(a) + "*" + EscapeGlob(b), caseSensitive, s)
       <==> exists x: string :: '/' !in x && EndsWith(s, a + x + b)
  {
    var node := Wildcard(AnyName);
    assert IsSoundNode(node) && IsWritable(node, false) && PrintNode(node) == "*";
    assert forall x :: DenotesNode(node, x) <==> '/' !in x;
    hide *;
    MiddleFinds(a, node, b, caseSensitive, s);
  }

  /** `**` finds anything. */
  lemma StarsFind(a: string, b: string, caseSensitive: bool, s: string)
    requires a != "" && b != ""
    ensures GlobFinds(EscapeGlob(a) + "**" + EscapeGlob(b), caseSensitive, s) <==> exists x: string :: EndsWith(s, a + x + b)
  {
    var node := Wildcard(AnyPath);
    assert IsSoundNode(node) && IsWritable(node, false) && PrintNode(node) == "**";
    assert forall x :: DenotesNode(node, x);
    hide *;
    MiddleFinds(a, node, b, caseSensitive, s);
  }

  /** `?` finds one character other than a slash. */
  lemma QuestionMarkFinds(a: string, b: string, caseSensitive: bool, s: string)
    requires a != "" && b != ""
    ensures GlobFinds(EscapeGlob(a) + "?" + EscapeGlob(b), caseSensitive, s)
       <==> exists c: char :: c != '/' && EndsWith(s, a + [c] + b)
  {
    var node := Wildcard(AnyLetter);
    assert IsSoundNode(node) && IsWritable(node, false) && PrintNode(node) == "?";
    assert forall x :: DenotesNode(node, x) <==> |x| == 1 && x[0] != '/';
    hide *;
    MiddleFinds(a, node, b, caseSensitive, s);
    LetterBetween(node, c => c != '/', a, b, s);
  }

  /** A part that denotes single characters. */
  lemma LetterBetween(node: Node, p: char -> bool, a: string, b: string, s: string)
    requires forall x :: DenotesNode(node, x) <==> |x| == 1 && p(x[0])
    ensures (exists x :: DenotesNode(node, x) && EndsWith(s, a + x + b)) <==> exists c: char :: p(c) && EndsWith(s, a + [c] + b)
  {
    hide *;
    forall x: string | DenotesNode(node, x) && EndsWith(s, a + x + b)
      ensures p(x[0]) && EndsWith(s, a + [x[0]] + b)
    {
      assert x == [x[0]];
    }
    forall c: char | p(c) && EndsWith(s, a + [c] + b) ensures DenotesNode(node, [c]) && EndsWith(s, a + [c] + b) {
      assert |[c]| == 1 && [c][0] == c;
    }
  }

  // ----- classes -----

  /**
   `[...]` finds one character of the class, `[!...]` one that is not of it, if the class is sound: no dash
   but the last stands right behind a range, and ranges are in order.
   */
  lemma ClassFinds(a: string, negated: bool, letters: string, b: string, caseSensitive: bool, s: string)
    requires a != "" && b != "" && letters != "" && ']' !in letters[1..] && (!negated ==> letters[0] != '!')
    ensures GlobFinds(EscapeGlob(a) + ((if negated then "[!" else "[") + letters + "]") + EscapeGlob(b), caseSensitive, s)
       <==> IsSoundClass(letters, false) && exists c: char :: InClass(letters, c) != negated && EndsWith(s, a + [c] + b)
  {
    var node := Group(negated, letters);
    assert IsWritable(node, false) && PrintNode(node) == (if negated then "[!" else "[") + letters + "]";
    assert IsSoundNode(node) <==> IsSoundClass(letters, false);
    assert forall x :: DenotesNode(node, x) <==> |x| == 1 && InClass(letters, x[0]) != negated;
    hide *;
    MiddleFinds(a, node, b, caseSensitive, s);
    LetterBetween(node, c => InClass(letters, c) != negated, a, b, s);
  }

  lemma {:induction false} PlainClassIsSound(letters: string, behindRange: bool)
    requires NoInnerDash(letters) && !behindRange
    ensures IsSoundClass(letters, behindRange)
  {
    if letters != "" { PlainClassIsSound(letters[1..], false); }
  }

  /** Without a dash inside, these are the characters listed, or those that are not. */
  lemma ListedClassFinds(a: string, letters: string, b: string, caseSensitive: bool, s: string)
    requires a != "" && b != "" && letters != "" && ']' !in letters[1..] && NoInnerDash(letters)
    ensures letters[0] != '!' ==>
              (GlobFinds(EscapeGlob(a) + ("[" + letters + "]") + EscapeGlob(b), caseSensitive, s)
               <==> exists c: char :: c in letters && EndsWith(s, a + [c] + b))
    ensures GlobFinds(EscapeGlob(a) + ("[!" + letters + "]") + EscapeGlob(b), caseSensitive, s)
       <==> exists c: char :: c !in letters && EndsWith(s, a + [c] + b)
  {
    var plain := letters[0] != '!';
    hide *;
    PlainClassIsSound(letters, false);
    forall c: char ensures InClass(letters, c) <==> c in letters { ClassWithoutRanges(letters, c); }
    ClassFinds(a, true, letters, b, caseSensitive, s);
    if plain { ClassFinds(a, false, letters, b, caseSensitive, s); }
  }

  /** A dash between two characters stands for all from one to the other; in the wrong order nothing is found. */
  lemma RangeFinds(a: string, low: char, high: char, b: string, caseSensitive: bool, s: string)
    requires a != "" && b != "" && high != ']' && low != '!'
    ensures GlobFinds(EscapeGlob(a) + ("[" + [low, '-', high] + "]") + EscapeGlob(b), caseSensitive, s)
       <==> exists c: char :: low <= c <= high && EndsWith(s, a + [c] + b)
  {
    var letters := [low, '-', high];
    assert letters[3..] == "" && letters[1..] == ['-', high];
    assert forall c :: InClass(letters, c) <==> low <= c <= high;
    assert IsSoundClass(letters, false) <==> low <= high;
    hide InClass;
    hide IsSoundClass;
    hide EscapeGlob;
    hide GlobFinds;
    ClassFinds(a, false, letters, b, caseSensitive, s);
  }

  // ----- choices -----

  lemma FieldDenotesItself(field: string, x: string)
    ensures Denotes(FieldExpression(field), x) <==> x == field
  {
    if field != "" { LiteralDenotes(field, x); }
  }

  lemma TwoFieldsDenote(l: string, r: string, x: string)
    ensures DenotesNode(Alternation([Branch(FieldExpression(l)), Branch(FieldExpression(r))]), x) <==> x == l || x == r
  {
    var branches := [Branch(FieldExpression(l)), Branch(FieldExpression(r))];
    FieldDenotesItself(l, x);
    FieldDenotesItself(r, x);
    hide FieldExpression;
    assert branches[0].expression == FieldExpression(l) && branches[1].expression == FieldExpression(r);
  }

  lemma ChoiceIsSound(l: string, r: string)
    ensures IsSoundNode(Alternation([Branch(FieldExpression(l)), Branch(FieldExpression(r))]))
  {
    LiteralIsSound(l);
    LiteralIsSound(r);
    hide IsSound;
    NothingIsSound();
  }

  lemma NothingIsSound()
    ensures IsSound([])
  {}

  lemma FieldIsPrinted(field: string)
    ensures Print(FieldExpression(field)) == EscapeGlob(field)
    ensures ',' !in field ==> AreWritable(FieldExpression(field), true)
  {
    NothingPrinted();
    EscapedNothing();
    if field != "" { assert [Literal(field)][1..] == []; }
    hide EscapeGlob;
  }

  lemma TwoBranchesPrinted(x: Branch, y: Branch)
    ensures PrintNode(Alternation([x, y])) == "{" + (Print(x.expression) + "," + Print(y.expression)) + "}"
  {
    hide Print;
    assert [x, y][1..] == [y];
    assert PrintBranches([y]) == Print(y.expression);
  }

  lemma TwoBranchesWritable(x: Branch, y: Branch)
    requires AreWritable(x.expression, true) && AreWritable(y.expression, true)
    requires x.expression != [] && !IsLetter(x.expression)
    ensures IsWritable(Alternation([x, y]), false)
  {
    hide AreWritable;
    hide IsLetter;
  }

  lemma LongTextIsNoLetter(text: string)
    requires |text| > 1
    ensures FieldExpression(text) != [] && !IsLetter(FieldExpression(text))
  {}

  lemma ChoiceIsPrinted(l: string, r: string)
    requires ',' !in l && ',' !in r && |l| > 1
    ensures var node := Alternation([Branch(FieldExpression(l)), Branch(FieldExpression(r))]);
            PrintNode(node) == "{" + (EscapeGlob(l) + "," + EscapeGlob(r)) + "}" && IsWritable(node, false)
  {
    hide *;
    FieldIsPrinted(l);
    FieldIsPrinted(r);
    LongTextIsNoLetter(l);
    TwoBranchesPrinted(Branch(FieldExpression(l)), Branch(FieldExpression(r)));
    TwoBranchesWritable(Branch(FieldExpression(l)), Branch(FieldExpression(r)));
  }

  /** `{l,r}` finds one or the other. */
  lemma ChoiceFinds(a: string, l: string, r: string, b: string, caseSensitive: bool, s: string)
    requires a != "" && b != "" && ',' !in l && ',' !in r && |l| > 1
    ensures GlobFinds(EscapeGlob(a) + ("{" + (EscapeGlob(l) + "," + EscapeGlob(r)) + "}") + EscapeGlob(b), caseSensitive, s)
       <==> EndsWith(s, a + l + b) || EndsWith(s, a + r + b)
  {
    hide *;
    var node := Alternation([Branch(FieldExpression(l)), Branch(FieldExpression(r))]);
    ChoiceIsPrinted(l, r);
    ChoiceIsSound(l, r);
    forall x ensures DenotesNode(node, x) <==> x == l || x == r { TwoFieldsDenote(l, r, x); }
    MiddleFinds(a, node, b, caseSensitive, s);
  }

  // ----- text that stands for itself -----

  const GIVEN_A_MEANING: string := "{}[]*\\+? "

  /** Text without the characters a glob gives a meaning stands for itself. */
  lemma {:induction false} OrdinaryText(text: string)
    requires forall i :: 0 <= i < |text| ==> text[i] !in GIVEN_A_MEANING
    ensures EscapeGlob(text) == text
  {
    if text != "" {
      assert text[0] !in SPECIAL_CHARS;
      OrdinaryText(text[1..]);
      assert text == [text[0]] + text[1..];
    }
  }
}
