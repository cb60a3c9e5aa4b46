/**
 Regular expressions as text: a reader for the part of the notation that globs are written in, and
 what the expressions match.
 */
module RegexText {

  datatype Regex =
    | Char(c: char)
    | AnyChar
    | Class(negated: bool, ranges: seq<Range>)
    | Star(inner: Regex)
    | Choice(alternatives: seq<Pieces>)

  datatype Range = Range(low: char, high: char)

  type Regexes = seq<Regex>

  datatype Pieces = Pieces(sequence: Regexes)

  // ----- matching -----

  predicate InRanges(ranges: seq<Range>, c: char) {
    exists i :: 0 <= i < |ranges| && ranges[i].low <= c <= ranges[i].high
  }

  ghost predicate MatchesOne(r: Regex, s: string)
    decreases r, |s|
  {
    match r
    case Char(c) => s == [c]
    case AnyChar => |s| == 1
    case Class(negated, ranges) => |s| == 1 && InRanges(ranges, s[0]) != negated
    case Star(inner) => s == "" || exists k :: 0 < k <= |s| && MatchesOne(inner, s[..k]) && MatchesOne(r, s[k..])
    case Choice(alternatives) => exists i :: 0 <= i < |alternatives| && Matches(alternatives[i].sequence, s)
  }

  ghost predicate Matches(e: Regexes, s: string)
    decreases e, |s|
  {
    if e == [] then s == ""
    else exists k :: 0 <= k <= |s| && MatchesOne(e[0], s[..k]) && Matches(e[1..], s[k..])
  }

  /** An expression anchored at the end; it may start anywhere. */
  datatype Pattern = Pattern(caseSensitive: bool, body: Regexes)

  ghost predicate Finds(p: Pattern, s: string) { exists k :: 0 <= k <= |s| && Matches(p.body, s[k..]) }

  // ----- reading -----

  /** A character, with or without a backslash before it. */
  datatype Token = Escaped(c: char) | Plain(c: char)

  type Tokens = seq<Token>

  function Lex(text: string): Tokens {
    if text == "" then []
    else if text[0] == '\\' && |text| > 1 then [Escaped(text[1])] + Lex(text[2..])
    else [Plain(text[0])] + Lex(text[1..])
  }

  datatype Parsed<T> = Failed | Parsed(value: T, rest: Tokens)

  predicate IsMeta(c: char) { c in ".*\\?()[]{}$^+|" }

  /** Letters and digits have meanings of their own behind a backslash. */
  predicate IsAlphanumeric(c: char) { '0' <= c <= '9' || 'a' <= c <= 'z' || 'A' <= c <= 'Z' || c == '_' }

  predicate Starts(toks: Tokens, c: char) { toks != [] && toks[0] == Plain(c) }

  /** A dash that makes a range: any but the last character of a class. */
  predicate StartsDash(toks: Tokens) { Starts(toks, '-') && !Starts(toks[1..], ']') }

  /**
   The characters of a class up to its closing bracket. A dash that makes a range may end one, but may
   begin one only as the very first character; a range in the wrong order is an error.
   */
  function ReadRanges(toks: Tokens, first: bool): (r: Parsed<seq<Range>>)
    ensures r.Parsed? ==> |r.rest| < |toks|
  {
    if toks == [] || (toks[0].Escaped? && IsAlphanumeric(toks[0].c)) then Failed
    else if Starts(toks, ']') && !first then Parsed([], toks[1..])
    else if StartsDash(toks) && !first then Failed
    else if StartsDash(toks[1..]) then
      if |toks| < 3 || (toks[2].Escaped? && IsAlphanumeric(toks[2].c)) || toks[0].c > toks[2].c then Failed
      else
        var more := ReadRanges(toks[3..], false);
        if more.Failed? then Failed else Parsed([Range(toks[0].c, toks[2].c)] + more.value, more.rest)
    else
      var more := ReadRanges(toks[1..], false);
      if more.Failed? then Failed else Parsed([Range(toks[0].c, toks[0].c)] + more.value, more.rest)
  }

  function ReadClass(toks: Tokens, negated: bool): (r: Parsed<Regex>)
    ensures r.Parsed? ==> |r.rest| < |toks|
  {
    var ranges := ReadRanges(toks, true);
    if ranges.Failed? then Failed else Parsed(Class(negated, ranges.value), ranges.rest)
  }

  function ReadAtom(toks: Tokens): (r: Parsed<Regex>)
    ensures r.Parsed? ==> |r.rest| < |toks|
    decreases |toks|, 0
  {
    if toks == [] then Failed
    else if toks[0].Escaped? then
      if IsAlphanumeric(toks[0].c) then Failed else Parsed(Char(toks[0].c), toks[1..])
    else if toks[0].c == '.' then Parsed(AnyChar, toks[1..])
    else if toks[0].c == '[' then
      if Starts(toks[1..], '^') then ReadClass(toks[2..], true) else ReadClass(toks[1..], false)
    else if toks[0].c == '(' then
      if |toks| >= 3 && toks[1] == Plain('?') && toks[2] == Plain(':') then
        var choice := ReadChoice(toks[3..]);
        if choice.Parsed? && Starts(choice.rest, ')') then Parsed(Choice(choice.value), choice.rest[1..]) else Failed
      else Failed
    else if IsMeta(toks[0].c) then Failed
    else Parsed(Char(toks[0].c), toks[1..])
  }

  /** An atom, maybe repeated. */
  function ReadPiece(toks: Tokens): (r: Parsed<Regex>)
    ensures r.Parsed? ==> |r.rest| < |toks|
    decreases |toks|, 1
  {
    var atom := ReadAtom(toks);
    if atom.Parsed? && Starts(atom.rest, '*') then Parsed(Star(atom.value), atom.rest[1..]) else atom
  }

  predicate EndsBranch(toks: Tokens) { toks == [] || Starts(toks, '|') || Starts(toks, ')') || Starts(toks, '$') }

  function ReadBranch(toks: Tokens): (r: Parsed<Regexes>)
    ensures r.Parsed? ==> |r.rest| <= |toks|
    decreases |toks|, 2
  {
    if EndsBranch(toks) then Parsed([], toks)
    else
      var piece := ReadPiece(toks);
      if piece.Failed? then Failed
      else
        var more := ReadBranch(piece.rest);
        if more.Failed? then Failed else Parsed([piece.value] + more.value, more.rest)
  }

  function ReadChoice(toks: Tokens): (r: Parsed<seq<Pieces>>)
    ensures r.Parsed? ==> |r.rest| <= |toks|
    decreases |toks|, 3
  {
    var branch := ReadBranch(toks);
    if branch.Failed? then Failed
    else if Starts(branch.rest, '|') then
      var more := ReadChoice(branch.rest[1..]);
      if more.Failed? then Failed else Parsed([Pieces(branch.value)] + more.value, more.rest)
    else Parsed([Pieces(branch.value)], branch.rest)
  }

  function ReadBody(caseSensitive: bool, text: string): Parsed<Pattern> {
    var branch := ReadBranch(Lex(text));
    if branch.Parsed? && branch.rest == [Plain('$')] then Parsed(Pattern(caseSensitive, branch.value), []) else Failed
  }

  /** A pattern with its options in front and the anchor at its end. */
  function ReadPattern(text: string): Parsed<Pattern> {
    if "(?i)" <= text then ReadBody(false, text[4..]) else ReadBody(true, text)
  }
}
