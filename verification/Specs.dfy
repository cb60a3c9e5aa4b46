/**
 Type specifiers (libpqtypes, spec.c, and their use in param.c): parsing a format, compiling it into
 a named specifier, and replaying that instead of parsing again.
 */
module Specs {
  import opened Basics

  // ----- type handlers -----

  /** `base` is the identifier of the type a subclass is made from, or -1. */
  datatype Handler = Handler(id: int, schema: string, name: string, puts: bool, base: int)

  /** The types built in, and those registered on a connection. */
  datatype Table = Table(builtin: seq<Handler>, registered: seq<Handler>) {
    /** Identifiers count the built-in types first. */
    ghost predicate Valid() {
      && (forall i :: 0 <= i < |builtin| ==> builtin[i].id == i)
      && (forall i :: 0 <= i < |registered| ==> registered[i].id == |builtin| + i)
    }

    function ById(id: int): (h: Option<Handler>) {
      if id <= -1 then None
      else if id < |builtin| then Some(builtin[id])
      else if id - |builtin| < |registered| then Some(registered[id - |builtin|])
      else None
    }

    /** Registered types hide built-in ones; without a schema the first of that name is meant. */
    function Find(schema: string, name: string): Option<Handler> {
      if name == "" then None
      else
        var own := First(registered, schema, name);
        if own.Some? then own else First(builtin, schema, name)
    }

    /** More types have been registered since. */
    predicate ExtendedBy(later: Table) { later.builtin == builtin && registered <= later.registered }
  }

  function First(handlers: seq<Handler>, schema: string, name: string): (h: Option<Handler>)
    ensures h.Some? ==> h.value in handlers
  {
    if handlers == [] then None
    else if (schema == "" || handlers[0].schema == schema) && handlers[0].name == name then Some(handlers[0])
    else First(handlers[1..], schema, name)
  }

  /** Whether values can be put by pointer; types of other schemas are left to their own routines. */
  predicate AllowsPointer(h: Handler) {
    if h.schema == "pg_catalog" then h.name in {"bpchar", "varchar", "text", "bytea", "name"}
    else h.schema != "pqt" || h.name == "str"
  }

  // ----- the types built in -----

  function Catalog(id: nat, name: string): Handler { Handler(id, "pg_catalog", name, true, -1) }

  /** The table at the head of handler.c; all of them can be put. */
  const BUILT_IN: seq<Handler> :=
    [Catalog(0, "char"), Catalog(1, "varchar"), Catalog(2, "bpchar"), Catalog(3, "text"),
     Catalog(4, "bool"), Catalog(5, "int2"), Catalog(6, "int4"), Catalog(7, "int8"),
     Catalog(8, "float4"), Catalog(9, "float8"), Catalog(10, "numeric"), Catalog(11, "bytea"),
     Catalog(12, "point"), Catalog(13, "lseg"), Catalog(14, "box"), Catalog(15, "circle"),
     Catalog(16, "path"), Catalog(17, "polygon"), Catalog(18, "money"), Catalog(19, "inet"),
     Catalog(20, "cidr"), Catalog(21, "macaddr"), Catalog(22, "time"), Catalog(23, "timetz"),
     Catalog(24, "date"), Catalog(25, "timestamp"), Catalog(26, "timestamptz"), Catalog(27, "interval"),
     Catalog(28, "oid"), Catalog(29, "uuid"), Catalog(30, "record"),
     Handler(31, "pqt", "str", true, -1), Handler(32, "pqt", "null", true, -1), Catalog(33, "name")]

  /** The types said to support pointers there: varchar, bpchar, text, bytea, str and name. */
  lemma PointersOfBuiltIn(k: nat)
    requires k < |BUILT_IN|
    ensures |BUILT_IN| == 34 && BUILT_IN[k].id == k && BUILT_IN[k].puts
    ensures AllowsPointer(BUILT_IN[k]) <==> k in {1, 2, 3, 11, 31, 33}
  {
    assert |BUILT_IN| == 34 && BUILT_IN[k].id == k && BUILT_IN[k].puts;
    hide BUILT_IN;
    hide AllowsPointer;
    if k < 9 { PointersBelow9(k); }
    else if k < 18 { PointersBelow18(k); }
    else if k < 27 { PointersBelow27(k); }
    else { PointersBelow34(k); }
  }

  lemma PointersBelow9(k: nat)
    requires k < 9
    ensures AllowsPointer(BUILT_IN[k]) <==> k in {1, 2, 3}
  {}

  lemma PointersBelow18(k: nat)
    requires 9 <= k < 18
    ensures AllowsPointer(BUILT_IN[k]) <==> k == 11
  {}

  lemma PointersBelow27(k: nat)
    requires 18 <= k < 27
    ensures !AllowsPointer(BUILT_IN[k])
  {}

  lemma PointersBelow34(k: nat)
    requires 27 <= k < 34
    ensures AllowsPointer(BUILT_IN[k]) <==> k in {31, 33}
  {}

  // ----- reading identifiers -----

  datatype Flags = Flags(casefold: bool, isArray: bool, pointer: bool, invalid: bool, byname: bool)

  const NO_FLAGS: Flags := Flags(false, false, false, false, false)
  const PQT_MAXIDLEN: nat := 64
  const QUOTE: char := 34 as char

  /** The character at a place; the text ends with a zero. */
  function At(f: string, k: nat): char { if k < |f| then f[k] else 0 as char }

  predicate IsAlpha(c: char) { 'a' <= c <= 'z' || 'A' <= c <= 'Z' }

  predicate IsWord(c: char) { IsAlpha(c) || '0' <= c <= '9' || c == '_' }

  /** How far an unquoted identifier goes. */
  function WordEnd(f: string, p: nat): (e: nat)
    ensures e >= p && (p <= |f| ==> e <= |f|)
    decreases |f| - p
  {
    if p < |f| && IsWord(f[p]) then WordEnd(f, p + 1) else p
  }

  /** Where the next double quote stands. */
  function QuoteAt(f: string, p: nat): (e: Option<nat>)
    ensures e.Some? ==> p <= e.value < |f| && f[e.value] == QUOTE
    decreases |f| - p
  {
    if p >= |f| then None else if f[p] == QUOTE then Some(p) else QuoteAt(f, p + 1)
  }

  /** An identifier with what is written behind it; null is an error that ends the parsing. */
  datatype Id = NullId | Id(start: nat, len: nat, flags: Flags, next: nat)

  predicate IdInside(f: string, id: Id) {
    id.Id? && !id.flags.invalid ==> id.start + id.len <= id.next <= |f| && 0 < id.len <= PQT_MAXIDLEN
  }

  function IdSuffix(f: string, start: nat, len: nat, p: nat, casefold: bool): (id: Id)
    requires start + len <= p <= |f|
    ensures IdInside(f, id) && (id.Id? ==> !id.flags.byname)
  {
    var flags := NO_FLAGS.(casefold := casefold);
    if len == 0 || len > PQT_MAXIDLEN then Id(start, len, flags.(invalid := true), p)
    else
      var pointer := At(f, p) == '*';
      var q := if pointer then p + 1 else p;
      if At(f, q) == '[' && At(f, q + 1) == ']' then
        if pointer then NullId else Id(start, len, flags.(isArray := true), q + 2)
      else Id(start, len, flags.(pointer := pointer), q)
  }

  function ReadId(f: string, id: nat): (r: Id)
    requires id <= |f|
    ensures IdInside(f, r) && (r.Id? ==> !r.flags.byname) && (r.Id? && !r.flags.invalid ==> id < r.next)
  {
    var quoted := At(f, id) == QUOTE;
    var p := if quoted then id + 1 else id;
    if !IsAlpha(At(f, p)) && At(f, p) != '_' then Id(0, 0, NO_FLAGS.(invalid := true), p)
    else if quoted then
      match QuoteAt(f, id + 1)
      case None => NullId
      case Some(e) => IdSuffix(f, id + 1, e - (id + 1), e + 1, false)
    else IdSuffix(f, id, WordEnd(f, id + 1) - id, WordEnd(f, id + 1), true)
  }

  function LowerChar(c: char): char { if 'A' <= c <= 'Z' then (c as int + 32) as char else c }

  function Lower(s: string): (t: string)
    ensures |t| == |s|
  {
    if s == "" then "" else [LowerChar(s[0])] + Lower(s[1..])
  }

  function Named(f: string, id: Id): string
    requires id.Id? && !id.flags.invalid && IdInside(f, id)
  {
    var name := f[id.start..id.start + id.len];
    if id.flags.casefold then Lower(name) else name
  }

  datatype TypeRef = NullType | NotAType | TypeRef(schema: string, name: string, flags: Flags, next: nat)

  /** The type an identifier makes behind that of its schema. */
  function TypeOf(f: string, schema: string, id: Id): (t: TypeRef)
    requires IdInside(f, id)
    ensures t.TypeRef? ==> id.Id? && t == TypeRef(schema, t.name, id.flags, id.next)
  {
    if id.NullId? then NullType
    else if id.flags.invalid then NotAType
    else TypeRef(schema, Named(f, id), id.flags, id.next)
  }

  function ReadType(f: string, pos: nat): (t: TypeRef)
    requires pos <= |f|
    ensures t.TypeRef? ==> pos < t.next <= |f| && !t.flags.byname
  {
    var id := ReadId(f, pos);
    if id.Id? && !id.flags.invalid && At(f, id.next) == '.' then TypeOf(f, Named(f, id), ReadId(f, id.next + 1))
    else TypeOf(f, "", id)
  }

  // ----- what a type name is -----

  datatype Mark = NoMark | ArrayMark | PointerMark

  /** An identifier as it is written. */
  datatype Name = Name(text: string, quoted: bool, mark: Mark)

  function MarkText(m: Mark): string { if m.ArrayMark? then "[]" else if m.PointerMark? then "*" else "" }

  function NameText(n: Name): string { (if n.quoted then [QUOTE] + n.text + [QUOTE] else n.text) + MarkText(n.mark) }

  predicate IsName(n: Name) {
    && 0 < |n.text| <= PQT_MAXIDLEN && (IsAlpha(n.text[0]) || n.text[0] == '_')
    && if n.quoted then QUOTE !in n.text else forall k :: 0 <= k < |n.text| ==> IsWord(n.text[k])
  }

  /** Unquoted names do not distinguish cases. */
  function Meant(n: Name): string { if n.quoted then n.text else Lower(n.text) }

  function NameFlags(n: Name): Flags { Flags(!n.quoted, n.mark.ArrayMark?, n.mark.PointerMark?, false, false) }

  predicate Brackets(rest: string) { |rest| >= 2 && rest[0] == '[' && rest[1] == ']' }

  predicate EndsMark(m: Mark, rest: string) {
    && (m.NoMark? && rest != "" ==> rest[0] != '*')
    && (!m.ArrayMark? ==> !Brackets(rest))
  }

  /** Nothing that follows would be taken for a part of the name. */
  predicate EndsName(n: Name, rest: string) {
    EndsMark(n.mark, rest) && (!n.quoted && n.mark.NoMark? && rest != "" ==> !IsWord(rest[0]))
  }

  predicate IsNameAt(f: string, pos: nat, n: Name, next: nat)
    ensures IsNameAt(f, pos, n, next) ==> pos <= next <= |f|
  {
    pos <= next <= |f| && f[pos..next] == NameText(n) && IsName(n) && EndsName(n, f[next..])
  }

  /** A name behind the name of its schema, or alone; a mark on the schema has no effect. */
  predicate IsTypeAt(f: string, pos: nat, schema: Option<Name>, name: Name, next: nat) {
    if schema.None? then IsNameAt(f, pos, name, next) && (next < |f| ==> f[next] != '.')
    else
      var dot := pos + |NameText(schema.value)|;
      dot < |f| && IsNameAt(f, pos, schema.value, dot) && f[dot] == '.' && IsNameAt(f, dot + 1, name, next)
  }

  lemma {:induction false} WordEndIs(f: string, p: nat, e: nat)
    requires p <= e <= |f| && forall k :: p <= k < e ==> IsWord(f[k])
    requires e < |f| ==> !IsWord(f[e])
    ensures WordEnd(f, p) == e
    decreases e - p
  {
    if p < e { WordEndIs(f, p + 1, e); }
  }

  lemma {:induction false} WordsOnly(f: string, p: nat)
    requires p <= |f|
    ensures forall k :: p <= k < WordEnd(f, p) ==> IsWord(f[k])
    ensures WordEnd(f, p) < |f| ==> !IsWord(f[WordEnd(f, p)])
    decreases |f| - p
  {
    if p < |f| && IsWord(f[p]) { WordsOnly(f, p + 1); }
  }

  lemma {:induction false} QuoteIsAt(f: string, p: nat, e: nat)
    requires p <= e < |f| && f[e] == QUOTE && forall k :: p <= k < e ==> f[k] != QUOTE
    ensures QuoteAt(f, p) == Some(e)
    decreases e - p
  {
    if p < e { QuoteIsAt(f, p + 1, e); }
  }

  lemma {:induction false} NoQuoteBefore(f: string, p: nat)
    ensures QuoteAt(f, p).Some? ==> forall k :: p <= k < QuoteAt(f, p).value ==> f[k] != QUOTE
    decreases |f| - p
  {
    if p < |f| && f[p] != QUOTE { NoQuoteBefore(f, p + 1); }
  }

  lemma MarkIsRead(f: string, start: nat, len: nat, p: nat, casefold: bool, m: Mark, next: nat)
    requires 0 < len <= PQT_MAXIDLEN && start + len <= p <= next <= |f|
    requires f[p..next] == MarkText(m) && EndsMark(m, f[next..])
    ensures IdSuffix(f, start, len, p, casefold) == Id(start, len, Flags(casefold, m.ArrayMark?, m.PointerMark?, false, false), next)
  {
    var here, rest := f[p..next], f[next..];
    assert |here| == |MarkText(m)| == next - p;
    if m.ArrayMark? { assert f[p] == here[0] && f[p + 1] == here[1]; }
    if m.PointerMark? { assert f[p] == here[0]; }
    if next < |f| { assert f[next] == rest[0]; }
    if next + 1 < |f| { assert f[next + 1] == rest[1]; }
  }

  lemma ReadIsMark(f: string, start: nat, len: nat, p: nat, casefold: bool) returns (m: Mark)
    requires start + len <= p <= |f|
    requires var r := IdSuffix(f, start, len, p, casefold); r.Id? && !r.flags.invalid
    ensures var r := IdSuffix(f, start, len, p, casefold);
            && 0 < len <= PQT_MAXIDLEN && p <= r.next <= |f| && f[p..r.next] == MarkText(m) && EndsMark(m, f[r.next..])
            && r == Id(start, len, Flags(casefold, m.ArrayMark?, m.PointerMark?, false, false), r.next)
  {
    var r := IdSuffix(f, start, len, p, casefold);
    m := if r.flags.isArray then ArrayMark else if r.flags.pointer then PointerMark else NoMark;
    assert f[p..r.next] == MarkText(m);
  }

  /** What a quoted identifier is before its mark. */
  lemma QuotedIs(f: string, pos: nat, e: nat)
    requires pos + 1 <= e < |f| && f[pos] == QUOTE && f[e] == QUOTE
    ensures f[pos..e + 1] == [QUOTE] + f[pos + 1..e] + [QUOTE]
  {}

  lemma QuotesOf(f: string, pos: nat, text: string, p: nat)
    requires pos <= p <= |f| && f[pos..p] == [QUOTE] + text + [QUOTE]
    ensures p == pos + |text| + 2 && f[pos] == QUOTE && f[p - 1] == QUOTE
  {
    var t := [QUOTE] + text + [QUOTE];
    assert |t| == p - pos && f[pos..p][0] == f[pos] && f[pos..p][p - 1 - pos] == f[p - 1];
  }

  lemma ReadQuoted(f: string, pos: nat, e: nat)
    requires pos + 1 < e < |f| && f[pos] == QUOTE && (IsAlpha(f[pos + 1]) || f[pos + 1] == '_')
    requires QuoteAt(f, pos + 1) == Some(e)
    ensures ReadId(f, pos) == IdSuffix(f, pos + 1, e - (pos + 1), e + 1, false)
  {
    hide IdSuffix;
    hide QuoteAt;
  }

  lemma ReadUnquoted(f: string, pos: nat, e: nat)
    requires pos < |f| && (IsAlpha(f[pos]) || f[pos] == '_') && WordEnd(f, pos + 1) == e
    ensures ReadId(f, pos) == IdSuffix(f, pos, e - pos, e, true)
  {
    hide IdSuffix;
    hide WordEnd;
  }

  lemma NamedIs(f: string, n: Name, start: nat, next: nat)
    requires IsName(n) && start + |n.text| <= next <= |f| && f[start..start + |n.text|] == n.text
    ensures var r := Id(start, |n.text|, NameFlags(n), next); IdInside(f, r) && Named(f, r) == Meant(n)
  {
    hide Lower;
  }

  /** The text of a name in its place. */
  lemma TextOfName(f: string, pos: nat, n: Name, p: nat)
    requires IsName(n) && pos <= p <= |f| && f[pos..p] == if n.quoted then [QUOTE] + n.text + [QUOTE] else n.text
    ensures var start := if n.quoted then pos + 1 else pos;
            && start + |n.text| <= p && f[start..start + |n.text|] == n.text && f[start] == n.text[0]
            && forall k :: start <= k < start + |n.text| ==> f[k] == n.text[k - start]
  {
    hide IsAlpha;
    hide IsWord;
    var start := if n.quoted then pos + 1 else pos;
    assert f[pos..p][start - pos..][..|n.text|] == n.text;
    assert f[pos..p][start - pos..][..|n.text|] == f[start..start + |n.text|];
    assert forall k :: start <= k < start + |n.text| ==> f[k] == f[start..start + |n.text|][k - start];
  }

  /** A name with its mark is read to its end. */
  lemma NameIsRead(f: string, pos: nat, n: Name, next: nat)
    requires IsNameAt(f, pos, n, next)
    ensures var r := ReadId(f, pos);
            r.Id? && !r.flags.invalid && r.next == next && r.flags == NameFlags(n) && Named(f, r) == Meant(n)
  {
    hide NameText;
    hide MarkText;
    hide EndsMark;
    hide ReadId;
    hide Named;
    hide Meant;
    hide IdSuffix;
    hide IsAlpha;
    hide IsWord;
    var start := if n.quoted then pos + 1 else pos;
    var e := start + |n.text|;
    var p := if n.quoted then e + 1 else e;
    CutName(f, pos, n, next, p);
    TextOfName(f, pos, n, p);
    MarkIsRead(f, start, |n.text|, p, !n.quoted, n.mark, next);
    NamedIs(f, n, start, next);
    if n.quoted {
      QuotesOf(f, pos, n.text, p);
      QuoteIsAt(f, pos + 1, e);
      ReadQuoted(f, pos, e);
    } else {
      UnquotedEnds(f, n, e, next);
      WordEndIs(f, pos + 1, e);
      ReadUnquoted(f, pos, e);
    }
  }

  lemma CutName(f: string, pos: nat, n: Name, next: nat, p: nat)
    requires pos <= next <= |f| && f[pos..next] == NameText(n) && p == pos + |n.text| + (if n.quoted then 2 else 0)
    ensures p <= next && f[p..next] == MarkText(n.mark)
    ensures f[pos..p] == if n.quoted then [QUOTE] + n.text + [QUOTE] else n.text
  {
    var head := if n.quoted then [QUOTE] + n.text + [QUOTE] else n.text;
    assert NameText(n)[..|head|] == head && NameText(n)[|head|..] == MarkText(n.mark);
    assert f[pos..next][..|head|] == f[pos..p] && f[pos..next][|head|..] == f[p..next];
  }

  lemma UnquotedEnds(f: string, n: Name, e: nat, next: nat)
    requires e <= next <= |f| && f[e..next] == MarkText(n.mark) && !n.quoted && EndsName(n, f[next..])
    ensures e < |f| ==> !IsWord(f[e])
  {
    if n.mark.NoMark? {
      if e < |f| { assert f[e] == f[next..][0]; }
    } else {
      assert f[e] == f[e..next][0];
    }
  }

  lemma ReadIdIs(f: string, pos: nat) returns (e: nat)
    requires pos <= |f| && ReadId(f, pos).Id? && !ReadId(f, pos).flags.invalid
    ensures var quoted := At(f, pos) == QUOTE; var start := if quoted then pos + 1 else pos;
            && start < e <= |f| && (IsAlpha(f[start]) || f[start] == '_')
            && if quoted then e < |f| && QuoteAt(f, pos + 1) == Some(e) && ReadId(f, pos) == IdSuffix(f, start, e - start, e + 1, false)
               else WordEnd(f, pos + 1) == e && ReadId(f, pos) == IdSuffix(f, start, e - start, e, true)
  {
    if At(f, pos) == QUOTE {
      hide QuoteAt;
      e := QuoteAt(f, pos + 1).value;
      assert e != pos + 1 by { assert !IsAlpha(QUOTE); }
    } else {
      hide WordEnd;
      e := WordEnd(f, pos + 1);
    }
    hide IdSuffix;
    hide IsWord;
  }

  /** And only that is read. */
  lemma ReadIsName(f: string, pos: nat) returns (n: Name)
    requires pos <= |f| && ReadId(f, pos).Id? && !ReadId(f, pos).flags.invalid
    ensures var r := ReadId(f, pos); IsNameAt(f, pos, n, r.next) && r.flags == NameFlags(n) && Named(f, r) == Meant(n)
  {
    hide NameText;
    hide MarkText;
    hide EndsMark;
    hide ReadId;
    hide Named;
    hide Meant;
    hide IdSuffix;
    hide IsNameAt;
    hide IsAlpha;
    var e := ReadIdIs(f, pos);
    if At(f, pos) == QUOTE {
      n := QuotedName(f, pos, e);
    } else {
      n := UnquotedName(f, pos, e);
    }
  }

  lemma QuotedName(f: string, pos: nat, e: nat) returns (n: Name)
    requires pos + 1 < e < |f| && f[pos] == QUOTE && (IsAlpha(f[pos + 1]) || f[pos + 1] == '_') && QuoteAt(f, pos + 1) == Some(e)
    requires var r := IdSuffix(f, pos + 1, e - (pos + 1), e + 1, false); r == ReadId(f, pos) && r.Id? && !r.flags.invalid
    ensures var r := ReadId(f, pos); IsNameAt(f, pos, n, r.next) && r.flags == NameFlags(n) && Named(f, r) == Meant(n)
  {
    hide NameText;
    hide MarkText;
    hide EndsMark;
    hide ReadId;
    hide Named;
    hide Meant;
    hide IdSuffix;
    hide QuoteAt;
    hide IsAlpha;
    hide IsWord;
    var next := ReadId(f, pos).next;
    NoQuoteBefore(f, pos + 1);
    var m := ReadIsMark(f, pos + 1, e - (pos + 1), e + 1, false);
    n := Name(f[pos + 1..e], true, m);
    QuotedIs(f, pos, e);
    JoinName(f, pos, n, e + 1, next);
    assert IsName(n) by { assert n.text[0] == f[pos + 1]; }
    NamedIs(f, n, pos + 1, next);
  }

  lemma UnquotedName(f: string, pos: nat, e: nat) returns (n: Name)
    requires pos < e <= |f| && (IsAlpha(f[pos]) || f[pos] == '_') && WordEnd(f, pos + 1) == e
    requires var r := IdSuffix(f, pos, e - pos, e, true); r == ReadId(f, pos) && r.Id? && !r.flags.invalid
    ensures var r := ReadId(f, pos); IsNameAt(f, pos, n, r.next) && r.flags == NameFlags(n) && Named(f, r) == Meant(n)
  {
    hide NameText;
    hide MarkText;
    hide EndsMark;
    hide ReadId;
    hide Named;
    hide Meant;
    hide IdSuffix;
    hide WordEnd;
    hide IsAlpha;
    hide IsWord;
    var next := ReadId(f, pos).next;
    WordsOnly(f, pos + 1);
    var m := ReadIsMark(f, pos, e - pos, e, true);
    n := Name(f[pos..e], false, m);
    JoinName(f, pos, n, e, next);
    NoWordBehind(f, n, e, next);
    LettersAreWords(f[pos]);
    assert IsName(n) by { assert n.text[0] == f[pos]; }
    NamedIs(f, n, pos, next);
  }

  lemma LettersAreWords(c: char)
    ensures IsAlpha(c) || c == '_' ==> IsWord(c)
  {}

  lemma JoinName(f: string, pos: nat, n: Name, p: nat, next: nat)
    requires pos <= p <= next <= |f| && f[p..next] == MarkText(n.mark)
    requires f[pos..p] == if n.quoted then [QUOTE] + n.text + [QUOTE] else n.text
    ensures f[pos..next] == NameText(n)
  {
    assert f[pos..next] == f[pos..p] + f[p..next];
  }

  lemma NoWordBehind(f: string, n: Name, e: nat, next: nat)
    requires e <= next <= |f| && f[e..next] == MarkText(n.mark) && (e < |f| ==> !IsWord(f[e]))
    ensures n.mark.NoMark? && f[next..] != "" ==> !IsWord(f[next..][0])
  {}

  /** A type is read exactly if its name stands there as far as the place behind, with a schema or without. */
  lemma TypeReadExactlyWhen(f: string, pos: nat, t: TypeRef)
    requires pos <= |f| && t.TypeRef?
    ensures ReadType(f, pos) == t
       <==> exists schema: Option<Name>, name: Name ::
              && IsTypeAt(f, pos, schema, name, t.next) && t.flags == NameFlags(name) && t.name == Meant(name)
              && t.schema == if schema.Some? then Meant(schema.value) else ""
  {
    if ReadType(f, pos) == t {
      var _, _ := TypeIsName(f, pos);
    }
    if schema: Option<Name>, name: Name :|
      && IsTypeAt(f, pos, schema, name, t.next) && t.flags == NameFlags(name) && t.name == Meant(name)
      && t.schema == if schema.Some? then Meant(schema.value) else ""
    {
      TypeIsRead(f, pos, schema, name, t.next);
    }
  }

  lemma TypeIsRead(f: string, pos: nat, schema: Option<Name>, name: Name, next: nat)
    requires pos <= |f| && IsTypeAt(f, pos, schema, name, next)
    ensures ReadType(f, pos)
         == TypeRef(if schema.Some? then Meant(schema.value) else "", Meant(name), NameFlags(name), next)
  {
    hide ReadId;
    hide Named;
    hide NameText;
    hide NameFlags;
    hide Meant;
    hide IsNameAt;
    if schema.Some? {
      var dot := pos + |NameText(schema.value)|;
      NameIsRead(f, pos, schema.value, dot);
      NameIsRead(f, dot + 1, name, next);
    } else {
      NameEnds(f, pos, name, next);
      NameIsRead(f, pos, name, next);
    }
  }

  lemma TypeIsName(f: string, pos: nat) returns (schema: Option<Name>, name: Name)
    requires pos <= |f| && ReadType(f, pos).TypeRef?
    ensures var t := ReadType(f, pos);
            && IsTypeAt(f, pos, schema, name, t.next) && t.flags == NameFlags(name) && t.name == Meant(name)
            && t.schema == if schema.Some? then Meant(schema.value) else ""
  {
    hide ReadId;
    hide Named;
    hide NameText;
    hide NameFlags;
    hide Meant;
    hide IsNameAt;
    var id := ReadId(f, pos);
    schema := None;
    name := ReadIsName(f, pos);
    if At(f, id.next) == '.' {
      schema := Some(name);
      NameEnds(f, pos, name, id.next);
      name := ReadIsName(f, id.next + 1);
    }
  }

  lemma NameEnds(f: string, pos: nat, n: Name, next: nat)
    requires IsNameAt(f, pos, n, next)
    ensures pos <= next <= |f| && next == pos + |NameText(n)|
  {
    assert |f[pos..next]| == |NameText(n)|;
  }

  // ----- one step of parsing -----

  /** Behind the closing quote; a backslash takes the character behind it along. */
  function QuotedEnd(f: string, end: nat): (e: Option<nat>)
    ensures e.Some? ==> end < e.value <= |f|
    decreases |f| - end
  {
    if end >= |f| then None
    else if f[end] == '\\' then QuotedEnd(f, end + 2)
    else if f[end] == '\'' then Some(end + 1)
    else QuotedEnd(f, end + 1)
  }

  datatype Step = Error | Skip(next: nat) | Parameter(next: nat, handler: Handler, flags: Flags)

  /** What puts values of a type: its own handler, or else that of a base, here of the first registered type. */
  function PutHandler(t: Table, h: Handler): Option<Handler> {
    if h.puts then Some(h)
    else if t.registered == [] then None
    else
      var o := t.ById(t.registered[0].base);
      if o.Some? && o.value.puts then o else None
  }

  /** A percent sign that no type follows is an error, except in a statement, where it may be an operator. */
  function StepAt(t: Table, f: string, pos: nat, forStatement: bool): (s: Step)
    requires pos < |f|
    ensures s.Error? || pos < s.next <= |f|
  {
    if f[pos] == '\'' then
      var end := QuotedEnd(f, pos + 1);
      if end.Some? then Skip(end.value) else Error
    else if f[pos] != '%' && f[pos] != '#' then Skip(pos + 1)
    else
      match ReadType(f, pos + 1)
      case NullType => Error
      case NotAType => if forStatement then Skip(pos + 1) else Error
      case TypeRef(schema, name, flags, next) =>
        var found := t.Find(schema, name);
        if found.None? then Error
        else
          var h := PutHandler(t, found.value);
          if h.None? || (flags.pointer && !AllowsPointer(h.value)) then Error
          else Parameter(next, h.value, flags.(byname := f[pos] == '#'))
  }

  // ----- a whole format -----

  datatype Piece = Copied(text: string) | Typed(text: string, handler: Handler, flags: Flags)

  /** The format cut into what is copied and what stands for parameters. */
  function Cut(t: Table, f: string, pos: nat, forStatement: bool): Option<seq<Piece>>
    requires pos <= |f|
    decreases |f| - pos
  {
    if pos == |f| then Some([])
    else
      var s := StepAt(t, f, pos, forStatement);
      if s.Error? then None
      else
        var more := Cut(t, f, s.next, forStatement);
        if more.None? then None else Some([PieceOf(f, pos, s)] + more.value)
  }

  function PieceOf(f: string, pos: nat, s: Step): Piece
    requires !s.Error? && pos <= s.next <= |f|
  {
    if s.Skip? then Copied(f[pos..s.next]) else Typed(f[pos..s.next], s.handler, s.flags)
  }

  function Source(pieces: seq<Piece>): string { if pieces == [] then "" else pieces[0].text + Source(pieces[1..]) }

  /** The parameter a piece stands for, if it does. */
  function ParameterOf(p: Piece): seq<(Handler, Flags)> { if p.Typed? then [(p.handler, p.flags)] else [] }

  function Parameters(pieces: seq<Piece>): seq<(Handler, Flags)> {
    if pieces == [] then [] else ParameterOf(pieces[0]) + Parameters(pieces[1..])
  }

  function Decimal(n: nat): string {
    (if n < 10 then "" else Decimal(n / 10)) + [('0' as int + n % 10) as char]
  }

  function PieceText(p: Piece, n: nat): string { if p.Typed? then "$" + Decimal(n) else p.text }

  /** The statement sent to the server: every parameter by its number, counted on from `n`. */
  function Statement(pieces: seq<Piece>, n: nat): string {
    if pieces == [] then "" else PieceText(pieces[0], n) + Statement(pieces[1..], n + |ParameterOf(pieces[0])|)
  }

  /** Nothing of the format is lost or changed places. */
  lemma {:induction false} PiecesMakeFormat(t: Table, f: string, pos: nat, forStatement: bool)
    requires pos <= |f| && Cut(t, f, pos, forStatement).Some?
    ensures Source(Cut(t, f, pos, forStatement).value) == f[pos..]
    decreases |f| - pos
  {
    hide StepAt;
    if pos < |f| {
      var s := StepAt(t, f, pos, forStatement);
      PiecesMakeFormat(t, f, s.next, forStatement);
      assert f[pos..] == f[pos..s.next] + f[s.next..];
    }
  }

  /** What parses without a statement parses the same way with one. */
  lemma {:induction false} StatementParsesAlike(t: Table, f: string, pos: nat)
    requires pos <= |f| && Cut(t, f, pos, false).Some?
    ensures Cut(t, f, pos, true) == Cut(t, f, pos, false)
    decreases |f| - pos
  {
    if pos < |f| {
      var s := StepAt(t, f, pos, false);
      assert StepAt(t, f, pos, true) == s;
      hide StepAt;
      StatementParsesAlike(t, f, s.next);
    }
  }

  lemma {:induction false} PiecesJoined(a: seq<Piece>, b: seq<Piece>, n: nat)
    ensures Statement(a + b, n) == Statement(a, n) + Statement(b, n + |Parameters(a)|)
    ensures Parameters(a + b) == Parameters(a) + Parameters(b)
  {
    hide PieceText;
    hide ParameterOf;
    if a == [] {
      assert a + b == b;
    } else {
      var k := n + |ParameterOf(a[0])|;
      PiecesJoined(a[1..], b, k);
      assert a + b == [a[0]] + (a[1..] + b);
      PieceInFront(a[0], a[1..] + b, n);
      PieceInFront(a[0], a[1..], n);
      assert a == [a[0]] + a[1..];
      hide Statement;
      hide Parameters;
    }
  }

  lemma PieceInFront(p: Piece, more: seq<Piece>, n: nat)
    ensures Statement([p] + more, n) == PieceText(p, n) + Statement(more, n + |ParameterOf(p)|)
    ensures Parameters([p] + more) == ParameterOf(p) + Parameters(more)
  {
    hide PieceText;
    hide ParameterOf;
    assert ([p] + more)[1..] == more;
  }

  lemma OneMorePiece(a: seq<Piece>, p: Piece, n: nat)
    ensures Statement(a + [p], n) == Statement(a, n) + PieceText(p, n + |Parameters(a)|)
    ensures Parameters(a + [p]) == Parameters(a) + ParameterOf(p)
  {
    hide PieceText;
    hide ParameterOf;
    PiecesJoined(a, [p], n);
    assert [p][1..] == [];
  }

  /** The pieces found so far and those still to come. */
  function Before(done: seq<Piece>, rest: Option<seq<Piece>>): Option<seq<Piece>> {
    if rest.None? then None else Some(done + rest.value)
  }

  lemma CutStep(t: Table, f: string, pos: nat, forStatement: bool, done: seq<Piece>)
    requires pos < |f|
    ensures var s := StepAt(t, f, pos, forStatement);
            if s.Error? then Before(done, Cut(t, f, pos, forStatement)) == None
            else Before(done, Cut(t, f, pos, forStatement)) == Before(done + [PieceOf(f, pos, s)], Cut(t, f, s.next, forStatement))
  {
    hide StepAt;
    var s := StepAt(t, f, pos, forStatement);
    if !s.Error? && Cut(t, f, s.next, forStatement).Some? {
      var p, more := PieceOf(f, pos, s), Cut(t, f, s.next, forStatement).value;
      assert done + ([p] + more) == done + [p] + more;
    }
  }

  /** A statement that does not fit so far does not fit as a whole. */
  lemma DoesNotFit(done: seq<Piece>, rest: Option<seq<Piece>>, n: nat, length: nat)
    requires |Statement(done, n)| >= length
    ensures Before(done, rest).Some? ==> |Statement(Before(done, rest).value, n)| >= length
  {
    if rest.Some? { PiecesJoined(done, rest.value, n); }
  }

  // ----- the fallback of types that put nothing -----

  /** The handler a type without a put routine of its own ought to use. */
  function OwnBase(t: Table, h: Handler): Option<Handler> {
    var o := t.ById(h.base);
    if o.Some? && o.value.puts then o else None
  }

  /** No type of the table has that identifier and a put routine. */
  predicate NothingPuts(t: Table, id: int) {
    forall x :: x in t.builtin + t.registered && x.id == id ==> !x.puts
  }

  lemma OwnBaseIsListed(t: Table, h: Handler)
    requires t.Valid()
    ensures OwnBase(t, h).None? <==> NothingPuts(t, h.base)
    ensures OwnBase(t, h).Some? ==> OwnBase(t, h).value.id == h.base
  {
    if t.ById(h.base).Some? { assert t.ById(h.base).value in t.builtin + t.registered; }
  }

  /**
   It is used exactly if it is also the base of the type registered first, or neither of these bases is
   the identifier of a type that can be put, so that there is an error either way.
   */
  lemma FallbackIsOwnBaseExactlyWhen(t: Table, h: Handler)
    requires t.Valid() && h in t.registered && !h.puts
    ensures PutHandler(t, h) == OwnBase(t, h)
       <==> t.registered[0].base == h.base || (NothingPuts(t, t.registered[0].base) && NothingPuts(t, h.base))
  {
    OwnBaseIsListed(t, h);
    OwnBaseIsListed(t, t.registered[0]);
    hide NothingPuts;
  }

  /** Two subclasses, of text and of a number: putting the second goes to the base of the first. */
  lemma SecondSubclassPutsWrong(t: Table)
    requires t == Table([Handler(0, "pg_catalog", "text", true, -1), Handler(1, "pg_catalog", "int4", true, -1)],
                        [Handler(2, "", "a", true, 0), Handler(3, "", "b", false, 1)])
    ensures t.Valid() && StepAt(t, "%b", 0, false) == Parameter(2, t.builtin[0], NO_FLAGS.(casefold := true))
    ensures OwnBase(t, t.registered[1]) == Some(t.builtin[1])
  {
    var f := "%b";
    assert WordEnd(f, 2) == 2;
    assert f[1..2] == "b" && Lower("b") == "b";
    assert First(t.registered, "", "b") == Some(t.registered[1]);
  }

  // ----- pointers -----

  lemma {:induction false} FirstIs(handlers: seq<Handler>, schema: string, name: string, k: nat)
    requires k < |handlers| && handlers[k].name == name && (schema == "" || handlers[k].schema == schema)
    requires forall j :: 0 <= j < k ==> handlers[j].name != name
    ensures First(handlers, schema, name) == Some(handlers[k])
  {
    if k > 0 { FirstIs(handlers[1..], schema, name, k - 1); }
  }

  lemma {:induction false} LowerKeeps(s: string)
    requires forall k :: 0 <= k < |s| ==> !('A' <= s[k] <= 'Z')
    ensures Lower(s) == s
  {
    if s != "" { LowerKeeps(s[1..]); }
  }

  /** A format of one type: a pointer goes through exactly if the type allows it. */
  lemma OneTypeIsParsed(t: Table, f: string, name: Name, h: Handler)
    requires f == "%" + NameText(name) && IsName(name) && t.Find("", Meant(name)) == Some(h) && h.puts
    ensures StepAt(t, f, 0, false)
         == if name.mark.PointerMark? && !AllowsPointer(h) then Error else Parameter(|f|, h, NameFlags(name))
  {
    assert f[1..] == NameText(name) && f[|f|..] == "";
    TypeIsRead(f, 1, None, name, |f|);
    hide ReadType;
    hide Table.Find;
    hide NameText;
    hide Meant;
    hide IsName;
  }

  lemma BuiltInNames(name: string, k: nat)
    requires (k == 31 && name == "str") || (k == 32 && name == "null")
    ensures BUILT_IN[k] == Handler(k, "pqt", name, true, -1) && First(BUILT_IN, "", name) == Some(BUILT_IN[k])
  {
    forall j | 0 <= j < k ensures BUILT_IN[j].name != name {}
    FirstIs(BUILT_IN, "", name, k);
    hide First;
  }

  lemma BuiltInType(t: Table, f: string, n: Name, k: nat)
    requires t == Table(BUILT_IN, []) && ((k == 31 && n.text == "str") || (k == 32 && n.text == "null")) && !n.quoted
    requires f == "%" + NameText(n)
    ensures var h := Handler(k, "pqt", n.text, true, -1);
            StepAt(t, f, 0, false) == if n.mark.PointerMark? && !AllowsPointer(h) then Error else Parameter(|f|, h, NameFlags(n))
  {
    hide BUILT_IN;
    hide StepAt;
    hide First;
    hide Lower;
    hide NameText;
    BuiltInNames(n.text, k);
    LowerKeeps(n.text);
    OneTypeIsParsed(t, f, n, Handler(k, "pqt", n.text, true, -1));
  }

  /** With the built-in types a pointer to a `str` can be put, and one to a `null` cannot. */
  lemma PointerToStrOnly(t: Table)
    requires t == Table(BUILT_IN, [])
    ensures StepAt(t, "%str*", 0, false)
         == Parameter(5, Handler(31, "pqt", "str", true, -1), NO_FLAGS.(casefold := true, pointer := true))
    ensures StepAt(t, "%null*", 0, false) == Error
    ensures StepAt(t, "%null", 0, false)
         == Parameter(5, Handler(32, "pqt", "null", true, -1), NO_FLAGS.(casefold := true))
  {
    hide BUILT_IN;
    hide StepAt;
    BuiltInType(t, "%str*", Name("str", false, PointerMark), 31);
    BuiltInType(t, "%null*", Name("null", false, PointerMark), 32);
    BuiltInType(t, "%null", Name("null", false, NoMark), 32);
  }

  // ----- parsing, as the program does it -----

  method SkipQuotes(f: string, pos: nat) returns (end: Option<nat>)
    requires pos < |f|
    ensures end == if f[pos] != '\'' then Some(pos) else QuotedEnd(f, pos + 1)
  {
    if f[pos] != '\'' { return Some(pos); }
    var e := pos + 1;
    while e < |f|
      invariant pos < e && QuotedEnd(f, e) == QuotedEnd(f, pos + 1)
      decreases |f| - e
    {
      if f[e] == '\\' {
        e := e + 1;
      } else if f[e] == '\'' {
        return Some(e + 1);
      }
      e := e + 1;
    }
    end := None;
  }

  method ParseId(f: string, id: nat) returns (r: Id)
    requires id <= |f|
    ensures r == ReadId(f, id)
  {
    hide IdSuffix;
    hide QuoteAt;
    var p := id;
    if At(f, p) == QUOTE { p := p + 1; }
    if !IsAlpha(At(f, p)) && At(f, p) != '_' { return Id(0, 0, NO_FLAGS.(invalid := true), p); }
    if At(f, id) == QUOTE {
      var e := QuoteAt(f, id + 1);
      if e.None? { return NullId; }
      r := IdSuffix(f, id + 1, e.value - (id + 1), e.value + 1, false);
    } else {
      p := id + 1;
      while p < |f| && IsWord(f[p])
        invariant id + 1 <= p <= |f| && WordEnd(f, p) == WordEnd(f, id + 1)
      {
        p := p + 1;
      }
      r := IdSuffix(f, id, p - id, p, true);
    }
  }

  method ParseType(f: string, pos: nat) returns (t: TypeRef)
    requires pos <= |f|
    ensures t == ReadType(f, pos)
  {
    hide ReadId;
    var id := ParseId(f, pos);
    if id.NullId? { return NullType; }
    if id.flags.invalid { return NotAType; }
    var schema := "";
    var start := id;
    if At(f, id.next) == '.' {
      schema := Named(f, id);
      id := ParseId(f, id.next + 1);
      if id.NullId? { return NullType; }
      if id.flags.invalid { return NotAType; }
    }
    t := TypeRef(schema, Named(f, id), id.flags, id.next);
  }

  /** Appends to the statement if one is kept; room for the terminating zero must stay. */
  method AppendText(buf: array<char>, forStatement: bool, at: nat, text: string) returns (ok: bool, next: nat)
    requires at <= buf.Length
    modifies buf
    ensures ok <==> !forStatement || at + |text| < buf.Length
    ensures next == (if ok && forStatement then at + |text| else at)
    ensures next <= buf.Length && (ok && forStatement ==> buf[..next] == old(buf[..at]) + text)
  {
    ok, next := true, at;
    if forStatement {
      if at + |text| >= buf.Length { return false, at; }
      forall k | 0 <= k < |text| { buf[at + k] := text[k]; }
      next := at + |text|;
    }
  }

  /** What one step adds to the statement. */
  function Added(f: string, pos: nat, s: Step, typpos: nat): string
    requires !s.Error? && pos <= s.next <= |f|
  {
    PieceText(PieceOf(f, pos, s), typpos + 1)
  }

  /** One step, with its effect on the statement and on the number of parameters. */
  method Parse(t: Table, f: string, pos: nat, buf: array<char>, forStatement: bool, stmtPos0: nat, typpos0: nat)
    returns (ok: bool, next: nat, h: Option<Handler>, flags: Flags, stmtPos: nat, typpos: nat)
    requires pos < |f| && stmtPos0 <= buf.Length
    modifies buf
    ensures stmtPos <= buf.Length
    ensures var s := StepAt(t, f, pos, forStatement);
            && (ok <==> !s.Error? && (!forStatement || stmtPos0 + |Added(f, pos, s, typpos0)| < buf.Length))
            && (ok ==>
                  && next == s.next && h == (if s.Parameter? then Some(s.handler) else None)
                  && (s.Parameter? ==> flags == s.flags) && typpos == typpos0 + (if s.Parameter? then 1 else 0)
                  && (forStatement ==> buf[..stmtPos] == old(buf[..stmtPos0]) + Added(f, pos, s, typpos0)))
  {
    hide ReadType;
    hide QuotedEnd;
    hide Decimal;
    next, h, flags, stmtPos, typpos := pos, None, NO_FLAGS, stmtPos0, typpos0;
    var end := SkipQuotes(f, pos);
    if end.None? { return false, next, h, flags, stmtPos, typpos; }
    if end.value != pos {
      next := end.value;
      ok, stmtPos := AppendText(buf, forStatement, stmtPos, f[pos..next]);
      return;
    }
    if f[pos] != '%' && f[pos] != '#' {
      next := pos + 1;
      ok, stmtPos := AppendText(buf, forStatement, stmtPos, f[pos..next]);
      return;
    }
    var t0 := ParseType(f, pos + 1);
    if t0.NullType? { return false, next, h, flags, stmtPos, typpos; }
    if t0.NotAType? {
      if !forStatement { return false, next, h, flags, stmtPos, typpos; }
      next := pos + 1;
      ok, stmtPos := AppendText(buf, forStatement, stmtPos, f[pos..next]);
      return;
    }
    typpos := typpos + 1;
    next, flags := t0.next, t0.flags;
    h := t.Find(t0.schema, t0.name);
    if h.None? { return false, next, h, flags, stmtPos, typpos; }
    ok, stmtPos := AppendText(buf, forStatement, stmtPos, "$" + Decimal(typpos));
    if !ok { return; }
    h := PutHandler(t, h.value);
    if h.None? || (flags.pointer && !AllowsPointer(h.value)) { return false, next, h, flags, stmtPos, typpos; }
    if f[pos] == '#' { flags := flags.(byname := true); }
  }

  // ----- compiled specifiers -----

  /** A named specifier: handlers by their identifiers, and the statement if it came with one. */
  datatype TypeSpec = TypeSpec(name: string, stmt: Option<string>, ids: seq<int>, flags: seq<Flags>)

  function Ids(parameters: seq<(Handler, Flags)>): (ids: seq<int>)
    ensures |ids| == |parameters| && forall k :: 0 <= k < |ids| ==> ids[k] == parameters[k].0.id
  {
    seq(|parameters|, k requires 0 <= k < |parameters| => parameters[k].0.id)
  }

  function FlagsOf(parameters: seq<(Handler, Flags)>): (flags: seq<Flags>)
    ensures |flags| == |parameters| && forall k :: 0 <= k < |flags| ==> flags[k] == parameters[k].1
  {
    seq(|parameters|, k requires 0 <= k < |parameters| => parameters[k].1)
  }

  function Compiled(name: string, pieces: seq<Piece>, isStmt: bool): TypeSpec {
    TypeSpec(name, if isStmt then Some(Statement(pieces, 1)) else None, Ids(Parameters(pieces)), FlagsOf(Parameters(pieces)))
  }

  function SpecNamed(specs: seq<TypeSpec>, name: string): (s: Option<TypeSpec>)
    ensures s.Some? ==> s.value.name == name
  {
    if specs == [] then None else if specs[0].name == name then Some(specs[0]) else SpecNamed(specs[1..], name)
  }

  /** The list without the first specifier of that name. */
  function Without(specs: seq<TypeSpec>, name: string): seq<TypeSpec> {
    if specs == [] then [] else if specs[0].name == name then specs[1..] else [specs[0]] + Without(specs[1..], name)
  }

  /** Room for the statement: the format's length, but no less than the buffer on the stack. */
  function BufferLength(format: string): nat { if |format| + 1 > 8192 then |format| + 1 else 8192 }

  predicate IsSpecName(name: string) { name != "" && IsWord(name[0]) }

  class TypeData {
    var types: Table
    var specs: seq<TypeSpec>

    constructor (types: Table)
      ensures this.types == types && specs == []
    {
      this.types, specs := types, [];
    }

    method GetSpec(name: string) returns (spec: Option<TypeSpec>)
      ensures spec == SpecNamed(specs, name)
    {
      var i := 0;
      while i < |specs|
        invariant i <= |specs| && SpecNamed(specs, name) == SpecNamed(specs[i..], name)
      {
        if specs[i].name == name { return Some(specs[i]); }
        i := i + 1;
      }
      spec := None;
    }

    /** Takes a specifier off the list; that there is none is no error. */
    method RemoveSpec(name: string)
      modifies this
      ensures types == old(types) && specs == Without(old(specs), name)
    {
      var i := 0;
      while i < |specs| && specs[i].name != name
        invariant i <= |specs| && specs == old(specs) && Without(specs, name) == specs[..i] + Without(specs[i..], name)
      {
        assert specs[i..][1..] == specs[i + 1..];
        assert specs[..i] + ([specs[i]] + Without(specs[i + 1..], name)) == specs[..i + 1] + Without(specs[i + 1..], name);
        i := i + 1;
      }
      if i < |specs| {
        assert specs[i..][1..] == specs[i + 1..];
        specs := specs[..i] + specs[i + 1..];
      } else {
        assert specs[i..] == [] && specs[..i] == specs;
      }
    }

    /**
     Compiles a format under a name, or removes the name if there is no format. Fails on a bad name, a
     name in use, a format that does not parse, and a statement that outgrows its buffer.
     */
    method SpecPrepare(name: string, format: Option<string>, isStmt: bool) returns (ok: bool)
      modifies this
      ensures types == old(types)
      ensures !ok ==> specs == old(specs)
      ensures format.None? ==> ok == IsSpecName(name) && (ok ==> specs == Without(old(specs), name))
      ensures format.Some? ==>
                var pieces := Cut(types, format.value, 0, isStmt);
                && (ok <==>
                      && IsSpecName(name) && format.value != "" && SpecNamed(old(specs), name).None? && pieces.Some?
                      && (isStmt ==> |Statement(pieces.value, 1)| < 8192 || |Statement(pieces.value, 1)| <= |format.value|))
                && (ok ==> specs == old(specs) + [Compiled(name, pieces.value, isStmt)])
    {
      if !IsSpecName(name) || format == Some("") { return false; }
      if format.None? {
        RemoveSpec(name);
        return true;
      }
      var spec := GetSpec(name);
      if spec.Some? { return false; }
      var parsed, ids, flags, stmt := CompileFormat(format.value, isStmt);
      if !parsed { return false; }
      specs := specs + [TypeSpec(name, if isStmt then Some(stmt) else None, ids, flags)];
      ok := true;
    }

    /** The loop of `SpecPrepare`. */
    method CompileFormat(format: string, isStmt: bool) returns (ok: bool, ids: seq<int>, flags: seq<Flags>, stmt: string)
      ensures var pieces := Cut(types, format, 0, isStmt);
              && (ok <==> pieces.Some? && (isStmt ==> |Statement(pieces.value, 1)| < BufferLength(format)))
              && (ok ==>
                    && ids == Ids(Parameters(pieces.value)) && flags == FlagsOf(Parameters(pieces.value))
                    && (isStmt ==> stmt == Statement(pieces.value, 1)))
    {
      hide Cut;
      hide StepAt;
      hide Statement;
      hide Parameters;
      hide PieceText;
      ghost var all := Cut(types, format, 0, isStmt);
      var buf := new char[BufferLength(format)];
      var pos: nat, stmtPos: nat, typpos: nat := 0, 0, 0;
      ghost var done: seq<Piece> := [];
      ids, flags, stmt := [], [], "";
      NothingYet(types, format, isStmt);
      assert buf[..0] == "";
      while pos < |format|
        invariant pos <= |format| && buf.Length == BufferLength(format)
        invariant all == Before(done, Cut(types, format, pos, isStmt))
        invariant typpos == |Parameters(done)| && ids == Ids(Parameters(done)) && flags == FlagsOf(Parameters(done))
        invariant stmtPos <= buf.Length && (isStmt ==> stmtPos < buf.Length && buf[..stmtPos] == Statement(done, 1))
        decreases |format| - pos
        modifies buf
      {
        CutStep(types, format, pos, isStmt, done);
        var h, fl;
        ghost var s, at := StepAt(types, format, pos, isStmt), pos;
        ok, pos, h, fl, stmtPos, typpos := Parse(types, format, pos, buf, isStmt, stmtPos, typpos);
        ghost var before := done;
        if !s.Error? {
          done := before + [PieceOf(format, at, s)];
          OneMorePiece(before, PieceOf(format, at, s), 1);
          ParameterAdded(before, PieceOf(format, at, s));
          if !ok { DoesNotFit(done, Cut(types, format, s.next, isStmt), 1, BufferLength(format)); }
        }
        if !ok { return; }
        if h.Some? {
          ids := ids + [h.value.id];
          flags := flags + [fl];
        }
      }
      NothingMore(types, format, isStmt);
      assert done + [] == done;
      ok := true;
      if isStmt { stmt := buf[..stmtPos]; }
    }
  }

  lemma NothingYet(t: Table, f: string, forStatement: bool)
    ensures Before([], Cut(t, f, 0, forStatement)) == Cut(t, f, 0, forStatement)
    ensures Parameters([]) == [] && Statement([], 1) == ""
  {
    hide StepAt;
    if Cut(t, f, 0, forStatement).Some? { assert [] + Cut(t, f, 0, forStatement).value == Cut(t, f, 0, forStatement).value; }
  }

  lemma NothingMore(t: Table, f: string, forStatement: bool)
    ensures Cut(t, f, |f|, forStatement) == Some([])
  {}

  lemma ParameterAdded(done: seq<Piece>, p: Piece)
    requires Parameters(done + [p]) == Parameters(done) + ParameterOf(p)
    ensures Ids(Parameters(done + [p])) == Ids(Parameters(done)) + (if p.Typed? then [p.handler.id] else [])
    ensures FlagsOf(Parameters(done + [p])) == FlagsOf(Parameters(done)) + (if p.Typed? then [p.flags] else [])
  {
    hide Parameters;
  }

  // ----- using them -----

  /** The handlers a compiled specifier stands for. */
  function Replayed(t: Table, ids: seq<int>, flags: seq<Flags>): Option<seq<(Handler, Flags)>>
    requires |ids| == |flags|
  {
    if ids == [] then Some([])
    else
      var h := t.ById(ids[0]);
      if h.None? then None
      else
        var more := Replayed(t, ids[1..], flags[1..]);
        if more.None? then None else Some([(h.value, flags[0])] + more.value)
  }

  /** What the parameters of a call are put with: a named specifier, or the format parsed on the spot. */
  function PutWith(t: Table, specs: seq<TypeSpec>, format: string): Option<seq<(Handler, Flags)>> {
    if format == "" then None
    else if format[0] == '@' then
      var spec := SpecNamed(specs, format[1..]);
      if spec.None? || |spec.value.ids| != |spec.value.flags| then None else Replayed(t, spec.value.ids, spec.value.flags)
    else
      var pieces := Cut(t, format, 0, false);
      if pieces.None? then None else Some(Parameters(pieces.value))
  }

  /** The handler of a step is one of the table, found by its identifier, also when more types are registered. */
  lemma StepHandlerIsListed(t: Table, later: Table, f: string, pos: nat, forStatement: bool)
    requires t.Valid() && t.ExtendedBy(later) && pos < |f|
    ensures var s := StepAt(t, f, pos, forStatement); s.Parameter? ==> later.ById(s.handler.id) == Some(s.handler)
  {
    hide ReadType;
    hide QuotedEnd;
    hide First;
  }

  /** However often a compiled specifier is used, it gives what parsing the format gave. */
  lemma {:induction false} ReplayIsParsing(t: Table, later: Table, f: string, pos: nat, forStatement: bool)
    requires t.Valid() && t.ExtendedBy(later) && pos <= |f| && Cut(t, f, pos, forStatement).Some?
    ensures var parameters := Parameters(Cut(t, f, pos, forStatement).value);
            Replayed(later, Ids(parameters), FlagsOf(parameters)) == Some(parameters)
    decreases |f| - pos
  {
    hide StepAt;
    if pos < |f| {
      var s := StepAt(t, f, pos, forStatement);
      StepHandlerIsListed(t, later, f, pos, forStatement);
      ReplayIsParsing(t, later, f, s.next, forStatement);
      var rest := Cut(t, f, s.next, forStatement).value;
      assert ([PieceOf(f, pos, s)] + rest)[1..] == rest;
      hide Replayed;
      assert Parameters([PieceOf(f, pos, s)] + rest) == ParameterOf(PieceOf(f, pos, s)) + Parameters(rest);
      if s.Parameter? {
        ReplayOne(later, s.handler, s.flags, Parameters(rest));
      } else {
        assert [] + Parameters(rest) == Parameters(rest);
      }
    }
  }

  lemma ReplayOne(t: Table, h: Handler, flags: Flags, more: seq<(Handler, Flags)>)
    requires t.ById(h.id) == Some(h) && Replayed(t, Ids(more), FlagsOf(more)) == Some(more)
    ensures var all := [(h, flags)] + more; Replayed(t, Ids(all), FlagsOf(all)) == Some(all)
  {
    var all := [(h, flags)] + more;
    assert Ids(all)[1..] == Ids(more) && FlagsOf(all)[1..] == FlagsOf(more);
  }

  lemma {:induction false} LastIsFound(specs: seq<TypeSpec>, spec: TypeSpec)
    requires SpecNamed(specs, spec.name).None?
    ensures SpecNamed(specs + [spec], spec.name) == Some(spec)
    ensures Without(specs + [spec], spec.name) == specs
  {
    if specs == [] {
      assert specs + [spec] == [spec];
    } else {
      LastIsFound(specs[1..], spec);
      assert (specs + [spec])[1..] == specs[1..] + [spec];
      assert specs == [specs[0]] + specs[1..];
    }
  }

  /**
   A format and its compiled name put parameters with the same handlers and flags in the same order,
   whether compiled with or without a statement, and also after more types have been registered. Taking
   the name off again leaves the list as it was.
   */
  lemma PreparedIsParsed(t: Table, later: Table, specs: seq<TypeSpec>, name: string, format: string, isStmt: bool)
    requires t.Valid() && t.ExtendedBy(later) && IsSpecName(name) && SpecNamed(specs, name).None?
    requires format != "" && format[0] != '@' && PutWith(t, specs, format).Some?
    ensures Cut(t, format, 0, isStmt).Some?
    ensures var added := specs + [Compiled(name, Cut(t, format, 0, isStmt).value, isStmt)];
            PutWith(later, added, "@" + name) == PutWith(t, specs, format) && Without(added, name) == specs
  {
    StatementParsesAlike(t, format, 0);
    ReplayIsParsing(t, later, format, 0, isStmt);
    LastIsFound(specs, Compiled(name, Cut(t, format, 0, isStmt).value, isStmt));
    assert ("@" + name)[1..] == name;
    hide Cut;
    hide Replayed;
    hide SpecNamed;
    hide Parameters;
  }


  // ----- putting parameters -----

  /** The loop of `PQputvf` over a compiled specifier. */
  method ReplaySpec(t: Table, spec: TypeSpec) returns (r: Option<seq<(Handler, Flags)>>)
    requires |spec.ids| == |spec.flags|
    ensures r == Replayed(t, spec.ids, spec.flags)
  {
    var typpos := 0;
    var put: seq<(Handler, Flags)> := [];
    assert spec.ids[0..] == spec.ids && spec.flags[0..] == spec.flags;
    BehindNothing(Replayed(t, spec.ids, spec.flags));
    while typpos != |spec.ids|
      invariant typpos <= |spec.ids|
      invariant Replayed(t, spec.ids, spec.flags) == Behind(put, Replayed(t, spec.ids[typpos..], spec.flags[typpos..]))
      decreases |spec.ids| - typpos
    {
      ReplayedStep(t, spec.ids[typpos..], spec.flags[typpos..], put);
      assert spec.ids[typpos..][1..] == spec.ids[typpos + 1..] && spec.flags[typpos..][1..] == spec.flags[typpos + 1..];
      hide Replayed;
      var h := t.ById(spec.ids[typpos]);
      if h.None? { return None; }
      put := put + [(h.value, spec.flags[typpos])];
      typpos := typpos + 1;
    }
    assert put + [] == put;
    r := Some(put);
  }

  function Behind(put: seq<(Handler, Flags)>, more: Option<seq<(Handler, Flags)>>): Option<seq<(Handler, Flags)>> {
    if more.None? then None else Some(put + more.value)
  }

  lemma BehindNothing(more: Option<seq<(Handler, Flags)>>)
    ensures Behind([], more) == more
  {
    if more.Some? { assert [] + more.value == more.value; }
  }

  lemma ReplayedStep(t: Table, ids: seq<int>, flags: seq<Flags>, put: seq<(Handler, Flags)>)
    requires |ids| == |flags| > 0
    ensures Behind(put, Replayed(t, ids, flags))
         == if t.ById(ids[0]).None? then None
            else Behind(put + [(t.ById(ids[0]).value, flags[0])], Replayed(t, ids[1..], flags[1..]))
  {
    var more := Replayed(t, ids[1..], flags[1..]);
    if t.ById(ids[0]).Some? && more.Some? {
      var one := [(t.ById(ids[0]).value, flags[0])];
      assert put + (one + more.value) == put + one + more.value;
    }
  }

  /** The same loop over a format. */
  method ParseParameters(t: Table, format: string) returns (r: Option<seq<(Handler, Flags)>>)
    ensures var pieces := Cut(t, format, 0, false); r == if pieces.None? then None else Some(Parameters(pieces.value))
  {
    hide Cut;
    hide StepAt;
    hide Parameters;
    var noBuf := new char[1];
    var pos: nat, typpos: nat := 0, 0;
    var put: seq<(Handler, Flags)> := [];
    ghost var done: seq<Piece> := [];
    NothingYet(t, format, false);
    while pos < |format|
      invariant pos <= |format| && put == Parameters(done)
      invariant Cut(t, format, 0, false) == Before(done, Cut(t, format, pos, false))
      decreases |format| - pos
      modifies noBuf
    {
      CutStep(t, format, pos, false, done);
      var ok, h, flags, stmtPos;
      ghost var s, at := StepAt(t, format, pos, false), pos;
      ok, pos, h, flags, stmtPos, typpos := Parse(t, format, pos, noBuf, false, 0, typpos);
      if !ok { return None; }
      OneMorePiece(done, PieceOf(format, at, s), 1);
      done := done + [PieceOf(format, at, s)];
      if h.Some? {
        put := put + [(h.value, flags)];
      } else {
        assert put + [] == put;
      }
    }
    NothingMore(t, format, false);
    assert done + [] == done;
    r := Some(put);
  }

  /** What a call puts its parameters with, by name or by format; no statement is kept. */
  method PutFormat(data: TypeData, format: string) returns (r: Option<seq<(Handler, Flags)>>)
    requires forall s :: s in data.specs ==> |s.ids| == |s.flags|
    ensures r == PutWith(data.types, data.specs, format)
  {
    hide Cut;
    hide Replayed;
    if format == "" { return None; }
    if format[0] == '@' {
      var spec := data.GetSpec(format[1..]);
      if spec.None? { return None; }
      NamedIsListed(data.specs, format[1..]);
      r := ReplaySpec(data.types, spec.value);
    } else {
      r := ParseParameters(data.types, format);
    }
  }

  lemma NamedIsListed(specs: seq<TypeSpec>, name: string)
    ensures SpecNamed(specs, name).Some? ==> SpecNamed(specs, name).value in specs
  {}
}
