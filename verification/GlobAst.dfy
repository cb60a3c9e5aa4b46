/** Glob expressions (lib/glob2regex): what they stand for and how they are written as a regular expression. */
module GlobAst {

  /** `**`, `*` and `?`; the only wildcards the parser makes. */
  datatype Jolly = AnyPath | AnyName | AnyLetter

  datatype Node =
    | Alternation(alternatives: seq<Branch>)
    | Group(negated: bool, characters: string)
    | Literal(text: string)
    | Wildcard(jolly: Jolly)

  type Expression = seq<Node>

  datatype Branch = Branch(expression: Expression)

  // ----- what a glob denotes -----

  /** A list of characters, where `a-z` stands for all characters from one to the other. */
  predicate InClass(characters: string, c: char) {
    if characters == "" then false
    else if |characters| >= 3 && characters[1] == '-' then characters[0] <= c <= characters[2] || InClass(characters[3..], c)
    else characters[0] == c || InClass(characters[1..], c)
  }

  /** No dash stands right behind a range unless it is the last character, and no range is in the wrong order. */
  predicate IsSoundClass(characters: string, behindRange: bool) {
    if characters == "" then true
    else if behindRange && characters[0] == '-' && |characters| > 1 then false
    else if |characters| >= 3 && characters[1] == '-' then characters[0] <= characters[2] && IsSoundClass(characters[3..], true)
    else IsSoundClass(characters[1..], false)
  }

  /** All classes in it are sound. */
  predicate IsSoundNode(n: Node)
    decreases n
  {
    match n
    case Alternation(alternatives) => forall i :: 0 <= i < |alternatives| ==> IsSound(alternatives[i].expression)
    case Group(_, characters) => IsSoundClass(characters, false)
    case Literal(_) => true
    case Wildcard(_) => true
  }

  predicate IsSound(e: Expression)
    decreases e
  {
    forall i :: 0 <= i < |e| ==> IsSoundNode(e[i])
  }

  predicate DenotesWildcard(jolly: Jolly, s: string) {
    match jolly
    case AnyPath => true
    case AnyName => forall i :: 0 <= i < |s| ==> s[i] != '/'
    case AnyLetter => |s| == 1 && s[0] != '/'
  }

  ghost predicate DenotesNode(n: Node, s: string)
    decreases n
  {
    match n
    case Alternation(alternatives) => exists i :: 0 <= i < |alternatives| && Denotes(alternatives[i].expression, s)
    case Group(negated, characters) => |s| == 1 && InClass(characters, s[0]) != negated
    case Literal(text) => s == text
    case Wildcard(jolly) => DenotesWildcard(jolly, s)
  }

  /** A text that can be cut into what the parts denote. */
  ghost predicate Denotes(e: Expression, s: string)
    decreases e
  {
    if e == [] then s == ""
    else exists k :: 0 <= k <= |s| && DenotesNode(e[0], s[..k]) && Denotes(e[1..], s[k..])
  }

  /** Some end of the text is denoted. */
  ghost predicate EndsIn(e: Expression, s: string) { exists k :: 0 <= k <= |s| && Denotes(e, s[k..]) }

  // ----- writing it as a regular expression -----

  const SPECIAL: string := ".*\\?()[]{}$^+|"

  predicate IsSpecial(c: char) { c in SPECIAL }

  function EscapedChar(c: char): string { if IsSpecial(c) then ['\\', c] else [c] }

  function EscapedText(text: string): string {
    if text == "" then "" else EscapedChar(text[0]) + EscapedText(text[1..])
  }

  function RenderWildcard(jolly: Jolly): string {
    match jolly
    case AnyName => "[^/]*"
    case AnyLetter => "[^/]"
    case AnyPath => ".*"
  }

  function RenderNode(n: Node): string
    decreases n
  {
    match n
    case Wildcard(jolly) => RenderWildcard(jolly)
    case Alternation(alternatives) => "(?:" + RenderAlternatives(alternatives) + ")"
    case Group(negated, characters) => "[" + (if negated then "^" else "") + EscapedText(characters) + "]"
    case Literal(text) => EscapedText(text)
  }

  function Render(e: Expression): string
    decreases e
  {
    if e == [] then "" else RenderNode(e[0]) + Render(e[1..])
  }

  function RenderAlternatives(alternatives: seq<Branch>): string
    decreases alternatives
  {
    if alternatives == [] then ""
    else if |alternatives| == 1 then Render(alternatives[0].expression)
    else Render(alternatives[0].expression) + "|" + RenderAlternatives(alternatives[1..])
  }

  /** The whole regular expression: anchored at the end, and in any case if asked for. */
  function RenderAst(e: Expression, caseSensitive: bool): string {
    (if caseSensitive then "" else "(?i)") + Render(e) + "$"
  }

  /** What the parser sees to: no class and no literal is empty, no choice is without alternatives. */
  predicate IsParsedNode(n: Node)
    decreases n
  {
    match n
    case Alternation(alternatives) => alternatives != [] && forall i :: 0 <= i < |alternatives| ==> IsParsed(alternatives[i].expression)
    case Group(_, characters) => characters != ""
    case Literal(text) => text != ""
    case Wildcard(_) => true
  }

  predicate IsParsed(e: Expression)
    decreases e
  {
    forall i :: 0 <= i < |e| ==> IsParsedNode(e[i])
  }
}
