/**
 What stands in prepared statements (libpqtypes, spec.c): the numbers of the placeholders as
 numerals, the texts copied between them, and the characters and types that names are made of.
 */
module SpecTexts {
  import opened Basics
  import opened Specs
  import D = Decimals
  import N = NumericText

  // ----- numerals -----

  predicate AreFigures(s: string) { forall i :: 0 <= i < |s| ==> '0' <= s[i] <= '9' }

  /** What a text of digits says in base ten, most significant digit first. */
  function Says(s: string): nat { D.Number(N.DigitsOf(s), 10) }

  lemma OneMoreFigure(s: string, c: char)
    requires '0' <= c <= '9'
    ensures Says(s + [c]) == Says(s) * 10 + (c as int - '0' as int)
  {
    var d := N.DigitsOf(s + [c]);
    assert d[..|d| - 1] == N.DigitsOf(s);
  }

  /** A number is written in digits without leading zeros, and they say that number. */
  lemma {:induction false} DecimalSaysNumber(n: nat)
    ensures var s := Decimal(n);
            && AreFigures(s) && s != "" && (|s| > 1 ==> s[0] != '0')
            && Says(s) == n && (n > 0 ==> s[0] != '0') && (n == 0 ==> s == "0")
  {
    var last := ('0' as int + n % 10) as char;
    assert '0' <= last <= '9' && last as int - '0' as int == n % 10;
    if n < 10 {
      assert "" + [last] == [last];
      OneMoreFigure("", last);
      assert Says("") == 0;
    } else {
      DecimalSaysNumber(n / 10);
      OneMoreFigure(Decimal(n / 10), last);
    }
  }

  // ----- statements -----

  /** A dollar sign and a numeral. */
  predicate IsPlaceholder(text: string, k: nat) {
    |text| > 1 && text[0] == '$' && AreFigures(text[1..]) && text[1] != '0' && Says(text[1..]) == k
  }

  function Joined(texts: seq<string>): string { if texts == [] then "" else texts[0] + Joined(texts[1..]) }

  /** How many of the first `i` pieces stand for parameters. */
  function TypedBefore(pieces: seq<Piece>, i: nat): nat
    requires i <= |pieces|
  {
    if i == 0 then 0 else TypedBefore(pieces, i - 1) + if pieces[i - 1].Typed? then 1 else 0
  }

  /** The texts of a statement: what is copied, and the placeholders counted from `n`. */
  ghost predicate AreTexts(pieces: seq<Piece>, texts: seq<string>, n: nat) {
    |texts| == |pieces|
    && forall i :: 0 <= i < |pieces| ==>
         if pieces[i].Typed? then IsPlaceholder(texts[i], n + TypedBefore(pieces, i)) else texts[i] == pieces[i].text
  }

  lemma {:induction false} TypedShifted(p: Piece, rest: seq<Piece>, i: nat)
    requires i <= |rest|
    ensures TypedBefore([p] + rest, i + 1) == (if p.Typed? then 1 else 0) + TypedBefore(rest, i)
  {
    if i > 0 { TypedShifted(p, rest, i - 1); }
  }

  lemma PlaceholderWritten(p: Piece, n: nat)
    requires n > 0 && p.Typed?
    ensures IsPlaceholder(PieceText(p, n), n)
  {
    DecimalSaysNumber(n);
    assert PieceText(p, n)[1..] == Decimal(n);
    hide Says;
  }

  lemma AreTextsStep(p: Piece, rest: seq<Piece>, first: string, texts: seq<string>, n: nat)
    requires AreTexts(rest, texts, n + if p.Typed? then 1 else 0)
    requires if p.Typed? then IsPlaceholder(first, n) else first == p.text
    ensures AreTexts([p] + rest, [first] + texts, n)
  {
    hide IsPlaceholder;
    var all, ts := [p] + rest, [first] + texts;
    forall i | 0 <= i < |all|
      ensures if all[i].Typed? then IsPlaceholder(ts[i], n + TypedBefore(all, i)) else ts[i] == all[i].text
    {
      if i > 0 {
        TypedShifted(p, rest, i - 1);
        assert all[i] == rest[i - 1] && ts[i] == texts[i - 1];
      } else {
        assert TypedBefore(all, 0) == 0;
      }
    }
  }

  /** A statement is the copied texts and, for its parameters, dollar signs with their numbers. */
  lemma {:induction false} StatementTexts(pieces: seq<Piece>, n: nat) returns (texts: seq<string>)
    requires n > 0
    ensures AreTexts(pieces, texts, n) && Statement(pieces, n) == Joined(texts)
  {
    if pieces == [] {
      texts := [];
    } else {
      var p, rest := pieces[0], pieces[1..];
      assert pieces == [p] + rest;
      var more := StatementTexts(rest, n + if p.Typed? then 1 else 0);
      var first := PieceText(p, n);
      if p.Typed? { PlaceholderWritten(p, n); }
      AreTextsStep(p, rest, first, more, n);
      texts := [first] + more;
      assert texts[1..] == more;
    }
  }

  /** Texts like these make the statement, whoever wrote them. */
  lemma {:induction false} TextsAreStatement(pieces: seq<Piece>, texts: seq<string>, n: nat)
    requires n > 0 && AreTexts(pieces, texts, n)
    ensures Statement(pieces, n) == Joined(texts)
  {
    var own := StatementTexts(pieces, n);
    forall i | 0 <= i < |pieces| ensures texts[i] == own[i] {
      if pieces[i].Typed? { SamePlaceholder(texts[i], own[i], n + TypedBefore(pieces, i)); }
    }
    assert texts == own;
  }

  /** There is one placeholder for a number. */
  lemma SamePlaceholder(a: string, b: string, k: nat)
    requires IsPlaceholder(a, k) && IsPlaceholder(b, k)
    ensures a == b
  {
    var x, y := N.DigitsOf(a[1..]), N.DigitsOf(b[1..]);
    D.LeadingDigitIsUnique(x, y, 10);
    forall i | 1 <= i < |a| ensures a[i] == b[i] {
      assert x[i - 1] == y[i - 1];
    }
  }

  /**
   The statement of a format: its pieces in order make up the format, and the statement has the same
   texts with the k-th parameter replaced by a dollar sign and k.
   */
  lemma StatementOfFormat(t: Table, f: string, statement: string)
    requires Cut(t, f, 0, true).Some?
    ensures var pieces := Cut(t, f, 0, true).value;
            && Source(pieces) == f
            && (statement == Statement(pieces, 1) <==> exists texts :: AreTexts(pieces, texts, 1) && statement == Joined(texts))
  {
    PiecesMakeFormat(t, f, 0, true);
    assert f[0..] == f;
    hide Cut;
    hide AreTexts;
    var pieces := Cut(t, f, 0, true).value;
    var own := StatementTexts(pieces, 1);
    forall texts | AreTexts(pieces, texts, 1) ensures Joined(texts) == Statement(pieces, 1) {
      TextsAreStatement(pieces, texts, 1);
    }
  }

  // ----- characters -----

  /** Letters, digits and underscores by their codes; a quote is code 34, and names have 64 characters at most. */
  lemma NameCharacters(c: char)
    ensures IsAlpha(c) <==> 65 <= c as int <= 90 || 97 <= c as int <= 122
    ensures IsWord(c) <==> 48 <= c as int <= 57 || 65 <= c as int <= 90 || c as int == 95 || 97 <= c as int <= 122
    ensures QUOTE as int == 34 && PQT_MAXIDLEN == 64
  {}

  /** Upper-case letters become lower-case ones, all else stays. */
  lemma {:induction false} LowerByPositions(s: string, i: nat)
    requires i < |s|
    ensures Lower(s)[i] as int == if 65 <= s[i] as int <= 90 then s[i] as int + 32 else s[i] as int
  {
    if i > 0 { LowerByPositions(s[1..], i - 1); }
  }

  /** What the name of a prepared specifier begins with. */
  lemma SpecNameStarts(name: string)
    ensures IsSpecName(name) <==> name != "" && (name[0] in "_" || IsAlpha(name[0]) || AreFigures(name[..1]))
  {}

  // ----- finding a type -----

  predicate Fits(h: Handler, schema: string, name: string) { h.name == name && (schema == "" || h.schema == schema) }

  /** The first of a list that fits. */
  ghost predicate IsFirstFit(handlers: seq<Handler>, schema: string, name: string, h: Handler) {
    exists i :: 0 <= i < |handlers| && handlers[i] == h && Fits(h, schema, name)
                && forall j :: 0 <= j < i ==> !Fits(handlers[j], schema, name)
  }

  lemma FitsLater(handlers: seq<Handler>, schema: string, name: string, h: Handler)
    requires handlers != [] && !Fits(handlers[0], schema, name)
    ensures IsFirstFit(handlers, schema, name, h) <==> IsFirstFit(handlers[1..], schema, name, h)
  {
    hide Fits;
    var rest := handlers[1..];
    if i :| 0 <= i < |rest| && rest[i] == h && Fits(h, schema, name) && forall j :: 0 <= j < i ==> !Fits(rest[j], schema, name) {
      assert handlers[i + 1] == h;
    }
    if i :| 0 <= i < |handlers| && handlers[i] == h && Fits(h, schema, name)
            && forall j :: 0 <= j < i ==> !Fits(handlers[j], schema, name) {
      assert rest[i - 1] == h;
      assert forall j :: 0 <= j < i - 1 ==> rest[j] == handlers[j + 1];
    }
  }

  lemma {:induction false} FirstFits(handlers: seq<Handler>, schema: string, name: string, h: Handler)
    ensures First(handlers, schema, name) == Some(h) <==> IsFirstFit(handlers, schema, name, h)
    ensures First(handlers, schema, name) == None <==> forall j :: 0 <= j < |handlers| ==> !Fits(handlers[j], schema, name)
  {
    if handlers != [] {
      FirstFits(handlers[1..], schema, name, h);
      assert forall j :: 0 < j < |handlers| ==> handlers[j] == handlers[1..][j - 1];
      if Fits(handlers[0], schema, name) {
        assert IsFirstFit(handlers, schema, name, handlers[0]);
      } else {
        FitsLater(handlers, schema, name, h);
        hide IsFirstFit;
      }
    }
  }

  /** A type is found by its name: the first registered one that fits, or else the first built-in one. */
  lemma FoundExactlyWhen(t: Table, schema: string, name: string, h: Handler)
    ensures t.Find(schema, name) == Some(h) <==>
            && name != ""
            && (IsFirstFit(t.registered, schema, name, h)
                || (IsFirstFit(t.builtin, schema, name, h)
                    && forall j :: 0 <= j < |t.registered| ==> !Fits(t.registered[j], schema, name)))
  {
    FirstFits(t.registered, schema, name, h);
    FirstFits(t.builtin, schema, name, h);
    if t.Find(schema, name).Some? { FirstFits(t.registered, schema, name, t.Find(schema, name).value); }
    hide First;
    hide Fits;
  }

  /** Types of other schemas may be put by pointer whatever their names. */
  lemma PointersOfOthers(h: Handler)
    requires h.schema != "pg_catalog" && h.schema != "pqt"
    ensures AllowsPointer(h)
  {}
}
