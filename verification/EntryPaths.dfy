/** The place a user has gone to (navigate/entrypath.cpp): pieces with escapes pushed on a stack of items. */
module EntryPaths {
  import opened Paths

  // ----- the grammar of a piece -----

  predicate IsHex(c: char) { '0' <= c <= '9' || 'a' <= c <= 'f' || 'A' <= c <= 'F' }

  function HexValue(c: char): nat
    requires IsHex(c)
  {
    if '0' <= c <= '9' then c as int - '0' as int
    else if 'a' <= c <= 'f' then c as int - 'a' as int + 10
    else c as int - 'A' as int + 10
  }

  /** One character of an item and how much text it takes; none of it if there is no more. */
  datatype Letter = NoLetter | Letter(c: char, length: nat)

  function LetterAt(text: string): (l: Letter)
    ensures l.Letter? ==> 0 < l.length <= |text| && (l.length == 1 <==> text[0] != '\\')
    ensures l.NoLetter? <==> text == "" || text[0] == '/' || text == "\\"
  {
    if text == "" || text[0] == '/' then NoLetter
    else if text[0] != '\\' then Letter(text[0], 1)
    else if |text| >= 4 && text[1] == 'x' && IsHex(text[2]) && IsHex(text[3]) then
      Letter((HexValue(text[2]) * 16 + HexValue(text[3])) as char, 4)
    else if |text| >= 2 then Letter(text[1], 2)
    else NoLetter
  }

  /** As many characters as there are, and the text behind them. */
  function ItemAt(text: string): (r: (string, string))
    ensures |r.0| + |r.1| <= |text| && (r.0 != "" <==> LetterAt(text).Letter?) && (r.0 == "" ==> r.1 == text)
    ensures r.1 == "" || r.1[0] == '/' || r.1 == "\\"
  {
    var l := LetterAt(text);
    if l.NoLetter? then ("", text)
    else
      var more := ItemAt(text[l.length..]);
      ([l.c] + more.0, more.1)
  }

  /** No character is lost only if there is no backslash. */
  lemma {:induction false} WholeItem(text: string)
    requires |ItemAt(text).0| + |ItemAt(text).1| == |text|
    ensures text == ItemAt(text).0 + ItemAt(text).1 && '\\' !in ItemAt(text).0 && '/' !in ItemAt(text).0
  {
    var l := LetterAt(text);
    if l.Letter? {
      WholeItem(text[l.length..]);
      assert text == [text[0]] + text[1..];
    }
  }

  function SkipSlashes(text: string): (rest: string)
    ensures |rest| <= |text| && (rest == "" || rest[0] != '/') && (text != "" && text[0] == '/' ==> |rest| < |text|)
  {
    if text != "" && text[0] == '/' then SkipSlashes(text[1..]) else text
  }

  /** The items of a text without slashes in front; a lone backslash at the end stops it. */
  function ItemsFrom(text: string): seq<string>
    decreases |text|
  {
    var item := ItemAt(text);
    if item.0 == "" then [] else [item.0] + ItemsFrom(SkipSlashes(item.1))
  }

  function Items(text: string): seq<string> { ItemsFrom(SkipSlashes(text)) }

  // ----- the stack -----

  predicate IsClean(item: string) { item != "" && item != "." && item != ".." }

  predicate Clean(stack: seq<string>) { forall k :: 0 <= k < |stack| ==> IsClean(stack[k]) }

  function Applied(stack: seq<string>, items: seq<string>): seq<string>
    decreases |items|
  {
    if items == [] then stack else Applied(OneApplied(stack, items[0]), items[1..])
  }

  function OneApplied(stack: seq<string>, item: string): seq<string> {
    if item == ".." then (if stack == [] then [] else stack[..|stack| - 1])
    else if item == "." then stack
    else stack + [item]
  }

  /** A text that begins with a slash starts over. */
  function Pushed(stack: seq<string>, text: string): seq<string> {
    Applied(if IsAbsolute(text) then [] else stack, Items(text))
  }

  class EntryPath {
    var stack: seq<string>

    ghost predicate Valid()
      reads this
    {
      Clean(stack)
    }

    constructor (piece: string)
      ensures Valid() && stack == Pushed([], piece)
    {
      stack := [];
      new;
      PushPiece(piece);
    }

    method PushPiece(piece: string)
      requires Valid()
      modifies this
      ensures Valid() && stack == Pushed(old(stack), piece)
    {
      hide Items;
      hide Applied;
      hide IsAbsolute;
      AbsoluteIs(piece);
      NoEmptyItem(piece);
      var result := Items(piece);
      if piece != "" && piece[0] == '/' { stack := []; }
      ghost var start := stack;
      var i := 0;
      assert result[0..] == result;
      while i < |result|
        invariant i <= |result| && Valid() && Applied(start, result) == Applied(stack, result[i..])
      {
        var itm := result[i];
        FirstApplied(stack, result[i..]);
        assert result[i..][1..] == result[i + 1..];
        if itm == ".." {
          if stack != [] { stack := stack[..|stack| - 1]; }
        } else if itm == "." {
        } else {
          stack := stack + [itm];
        }
        i := i + 1;
      }
      assert result[i..] == [];
      NoneApplied(stack);
    }

    method ToString() returns (text: string)
      ensures text == PathText(stack, true)
    {
      text := "/";
      var i := 0;
      while i < |stack|
        invariant i <= |stack| && text == PathText(stack[..i], true)
      {
        if i > 0 { text := text + "/"; }
        text := text + stack[i];
        OneMoreItem(stack[..i], stack[i]);
        assert stack[..i + 1] == stack[..i] + [stack[i]];
        i := i + 1;
      }
      assert stack[..|stack|] == stack;
    }
  }

  lemma FirstApplied(stack: seq<string>, items: seq<string>)
    requires items != []
    ensures Applied(stack, items) == Applied(OneApplied(stack, items[0]), items[1..])
  {}

  lemma NoneApplied(stack: seq<string>)
    ensures Applied(stack, []) == stack
  {}

  lemma NoEmptyItem(piece: string)
    ensures forall k :: 0 <= k < |Items(piece)| ==> Items(piece)[k] != ""
  {
    ItemsAreNotEmpty(SkipSlashes(piece));
  }

  lemma AbsoluteIs(text: string)
    ensures IsAbsolute(text) <==> text != "" && text[0] == '/'
  {}

  lemma {:induction false} ItemsAreNotEmpty(text: string)
    ensures forall k :: 0 <= k < |ItemsFrom(text)| ==> ItemsFrom(text)[k] != ""
    decreases |text|
  {
    var item := ItemAt(text);
    if item.0 != "" { ItemsAreNotEmpty(SkipSlashes(item.1)); }
  }

  lemma {:induction false} OneMoreItem(stack: seq<string>, item: string)
    ensures PathText(stack + [item], true) == PathText(stack, true) + (if stack == [] then "" else "/") + item
  {
    JoinedEndsWith(stack, [item]);
    assert Joined([item]) == item;
    assert "/" + (Joined(stack) + "/" + item) == "/" + Joined(stack) + "/" + item;
    assert stack == [] ==> stack + [item] == [item];
  }

  // ----- piece after piece -----

  lemma {:induction false} AppliedJoined(stack: seq<string>, a: seq<string>, b: seq<string>)
    ensures Applied(stack, a + b) == Applied(Applied(stack, a), b)
    decreases |a|
  {
    if a == [] {
      assert a + b == b;
    } else {
      AppliedJoined(OneApplied(stack, a[0]), a[1..], b);
      assert (a + b)[0] == a[0] && (a + b)[1..] == a[1..] + b;
    }
  }

  /** The grammar takes the whole text: no lone backslash ends it. */
  predicate Complete(text: string)
    decreases |text|
  {
    var rest := SkipSlashes(text);
    var item := ItemAt(rest);
    if item.0 == "" then rest == "" else Complete(item.1)
  }

  function TrailingBackslashes(text: string): nat {
    if text != "" && text[|text| - 1] == '\\' then 1 + TrailingBackslashes(text[..|text| - 1]) else 0
  }

  lemma {:induction false} TrailingOfJoined(a: string, b: string)
    ensures TrailingBackslashes(b) <= |b|
    ensures TrailingBackslashes(a + b)
         == if TrailingBackslashes(b) == |b| then TrailingBackslashes(a) + |b| else TrailingBackslashes(b)
    decreases |b|
  {
    if b == "" {
      assert a + b == a;
    } else {
      var n := |b| - 1;
      TrailingOfJoined(a, b[..n]);
      assert (a + b)[..|a| + n] == a + b[..n] && (a + b)[|a| + n] == b[n];
    }
  }

  /** A letter takes whole pairs of backslashes, if any. */
  lemma LetterKeepsParity(text: string)
    requires LetterAt(text).Letter?
    ensures TrailingBackslashes(text) % 2 == TrailingBackslashes(text[LetterAt(text).length..]) % 2
  {
    var n := LetterAt(text).length;
    var a, b := text[..n], text[n..];
    assert text == a + b;
    TrailingOfJoined(a, b);
    if n == 2 && text[1] == '\\' {
      assert a[..1] == [text[0]] && a[..1][..0] == "";
      assert TrailingBackslashes(a[..1]) == 1 && TrailingBackslashes(a) == 2;
    } else {
      assert a[n - 1] == text[n - 1] != '\\';
    }
  }

  lemma {:induction false} ItemKeepsParity(text: string)
    ensures TrailingBackslashes(text) % 2 == TrailingBackslashes(ItemAt(text).1) % 2
  {
    if LetterAt(text).Letter? {
      LetterKeepsParity(text);
      ItemKeepsParity(text[LetterAt(text).length..]);
    }
    hide LetterAt;
    hide TrailingBackslashes;
  }

  lemma {:induction false} SlashesKeepTrailing(text: string)
    ensures TrailingBackslashes(text) == TrailingBackslashes(SkipSlashes(text))
  {
    if text != "" && text[0] == '/' {
      SlashesKeepTrailing(text[1..]);
      assert text == "/" + text[1..];
      TrailingOfJoined("/", text[1..]);
    }
  }

  /** A text is taken whole exactly if the backslashes at its end make pairs. */
  lemma {:induction false} CompleteExactlyWhen(text: string)
    ensures Complete(text) <==> TrailingBackslashes(text) % 2 == 0
    decreases |text|
  {
    var rest := SkipSlashes(text);
    SlashesKeepTrailing(text);
    ItemKeepsParity(rest);
    if ItemAt(rest).0 != "" {
      CompleteExactlyWhen(ItemAt(rest).1);
    } else if rest != "" {
      assert rest == "\\" && rest[..0] == "";
    }
    hide ItemAt;
    hide SkipSlashes;
  }

  lemma {:induction false} SkippedThenText(text: string, more: string)
    ensures SkipSlashes(text + more) == if SkipSlashes(text) == "" then SkipSlashes(more) else SkipSlashes(text) + more
  {
    if text == "" {
      assert text + more == more;
    } else if text[0] == '/' {
      assert (text + more)[1..] == text[1..] + more;
      SkippedThenText(text[1..], more);
    }
  }

  lemma LetterBeforeSlash(text: string, more: string)
    requires text != "" && text != "\\" && more != "" && more[0] == '/'
    ensures LetterAt(text + more) == LetterAt(text)
  {
    assert forall k :: 0 <= k < |text| ==> (text + more)[k] == text[k];
    assert (text + more)[|text|] == '/';
  }

  lemma {:induction false} ItemBeforeSlash(text: string, more: string)
    requires more != "" && more[0] == '/' && ItemAt(text).1 != "\\"
    ensures ItemAt(text + more) == (ItemAt(text).0, ItemAt(text).1 + more)
  {
    hide LetterAt;
    hide ItemsFrom;
    if text == "" {
      assert text + more == more;
    } else {
      LetterBeforeSlash(text, more);
      var l := LetterAt(text);
      if l.Letter? {
        var tail := text[l.length..];
        assert (text + more)[l.length..] == tail + more;
        ItemBeforeSlash(tail, more);
        hide ItemAt;
        ItemFollows(text, l.c, l.length, ItemAt(tail).0, ItemAt(tail).1);
        ItemFollows(text + more, l.c, l.length, ItemAt(tail).0, ItemAt(tail).1 + more);
      }
    }
  }

  lemma {:induction false} ItemsOfJoined(p: string, q: string)
    requires Complete(p)
    ensures Items(p + "/" + q) == Items(p) + Items(q)
    decreases |p|
  {
    hide ItemAt;
    var more := "/" + q;
    var rest := SkipSlashes(p);
    assert p + "/" + q == p + more && more[1..] == q;
    SkippedThenText(p, more);
    if rest != "" {
      var item := ItemAt(rest);
      CompleteItem(p);
      ItemBeforeSlash(rest, more);
      ItemsOfJoined(item.1, q);
      assert item.1 + "/" + q == item.1 + more;
    } else {
      NoItems();
      assert SkipSlashes(more) == SkipSlashes(q);
    }
  }

  lemma NoItems()
    ensures ItemsFrom("") == []
  {}

  lemma CompleteItem(p: string)
    requires Complete(p) && SkipSlashes(p) != ""
    ensures var item := ItemAt(SkipSlashes(p)); item.0 != "" && item.1 != "\\" && Complete(item.1)
  {
    assert !Complete("\\") by {
      assert SkipSlashes("\\") == "\\" && LetterAt("\\") == NoLetter;
    }
  }

  /** Pushing a relative piece behind another is pushing both with a slash between them. */
  lemma PushedOneByOne(stack: seq<string>, p: string, q: string)
    requires TrailingBackslashes(p) % 2 == 0 && p != "" && !IsAbsolute(q)
    ensures Pushed(Pushed(stack, p), q) == Pushed(stack, p + "/" + q)
  {
    CompleteExactlyWhen(p);
    hide Complete;
    ItemsOfJoined(p, q);
    AppliedJoined(if IsAbsolute(p) then [] else stack, Items(p), Items(q));
    assert (p + "/" + q)[0] == p[0];
    hide Items;
    hide Applied;
  }

  // ----- the text of a stack, read again -----

  predicate IsPlain(item: string) { '/' !in item && '\\' !in item }

  predicate PlainStack(stack: seq<string>) { forall k :: 0 <= k < |stack| ==> IsPlain(stack[k]) }

  /** Length of all items with a slash before each. */
  function Total(items: seq<string>): nat { if items == [] then 0 else 1 + |items[0]| + Total(items[1..]) }

  lemma {:induction false} TotalIsLength(stack: seq<string>)
    ensures stack != [] ==> |PathText(stack, true)| == Total(stack)
  {
    if |stack| > 1 { TotalIsLength(stack[1..]); }
  }

  lemma {:induction false} TotalOfJoined(a: seq<string>, b: seq<string>)
    ensures Total(a + b) == Total(a) + Total(b)
  {
    if a == [] {
      assert a + b == b;
    } else {
      TotalOfJoined(a[1..], b);
      assert (a + b)[1..] == a[1..] + b;
    }
  }

  /** Reading never makes more of a text than is in it, and less if a backslash is there. */
  lemma {:induction false} ItemsAreNoLonger(text: string)
    requires text == "" || text[0] != '/'
    ensures text != "" ==> Total(ItemsFrom(text)) <= |text| + 1
    ensures text != "" && Total(ItemsFrom(text)) == |text| + 1 ==> '\\' !in text
    decreases |text|
  {
    var item := ItemAt(text);
    if item.0 != "" {
      var rest := SkipSlashes(item.1);
      ItemsAreNoLonger(rest);
      assert ItemsFrom(text)[1..] == ItemsFrom(rest);
      NoItems();
      LoneBackslash();
      hide ItemAt;
      hide ItemsFrom;
      if Total(ItemsFrom(text)) == |text| + 1 {
        WholeItem(text);
        if rest == "" { assert text == item.0 + ""; } else { RestOfText(text, item.0, item.1, rest); }
      }
    }
  }

  lemma LoneBackslash()
    ensures SkipSlashes("\\") == "\\" && ItemsFrom("\\") == []
  {
    assert LetterAt("\\") == NoLetter;
  }

  lemma RestOfText(text: string, item: string, behind: string, rest: string)
    requires text == item + behind && '\\' !in item
    requires rest == SkipSlashes(behind) && |behind| == |rest| + 1 && '\\' !in rest && behind[0] == '/'
    ensures '\\' !in text
  {
    assert behind[1..] == rest by { OneSlash(behind); }
    assert behind == [behind[0]] + rest;
  }

  lemma OneSlash(text: string)
    requires text != "" && text[0] == '/' && |SkipSlashes(text)| == |text| - 1
    ensures SkipSlashes(text) == text[1..]
  {}

  /** Without backslashes the items of a text are what stands between its slashes. */
  lemma {:induction false} ItemsArePlain(text: string)
    requires '\\' !in text
    ensures PlainStack(ItemsFrom(text))
    decreases |text|
  {
    hide ItemAt;
    hide IsPlain;
    hide SkipSlashes;
    var item := ItemAt(text);
    ItemIsPlain(text);
    if item.0 != "" {
      SkippedHasNoBackslash(item.1);
      ItemsArePlain(SkipSlashes(item.1));
    }
  }

  lemma {:induction false} ItemIsPlain(text: string)
    requires '\\' !in text
    ensures IsPlain(ItemAt(text).0) && '\\' !in ItemAt(text).1
  {
    var l := LetterAt(text);
    if l.Letter? {
      assert text == [text[0]] + text[1..];
      ItemIsPlain(text[l.length..]);
    }
  }

  lemma {:induction false} SkippedHasNoBackslash(text: string)
    requires '\\' !in text
    ensures '\\' !in SkipSlashes(text)
  {
    if text != "" && text[0] == '/' { SkippedHasNoBackslash(text[1..]); }
  }

  /** Every item of the stack was there before or has been pushed. */
  lemma {:induction false} AppliedIsFrom(stack: seq<string>, items: seq<string>)
    requires PlainStack(stack) && PlainStack(items)
    ensures PlainStack(Applied(stack, items))
    decreases |items|
  {
    hide IsPlain;
    if items != [] { AppliedIsFrom(OneApplied(stack, items[0]), items[1..]); }
  }

  lemma {:induction false} AppliedIsNoLonger(stack: seq<string>, items: seq<string>)
    ensures Total(Applied(stack, items)) <= Total(stack) + Total(items)
    decreases |items|
  {
    if items != [] {
      AppliedIsNoLonger(OneApplied(stack, items[0]), items[1..]);
      TotalOfJoined(stack, [items[0]]);
      if stack != [] {
        assert stack == stack[..|stack| - 1] + [stack[|stack| - 1]];
        TotalOfJoined(stack[..|stack| - 1], [stack[|stack| - 1]]);
      }
    }
  }

  lemma {:induction false} CleanIsKept(stack: seq<string>, items: seq<string>)
    requires Clean(items)
    ensures Applied(stack, items) == stack + items
    decreases |items|
  {
    if items == [] {
      assert stack + items == stack;
    } else {
      CleanIsKept(stack + [items[0]], items[1..]);
      assert stack + items == stack + [items[0]] + items[1..];
    }
  }

  /** One unfolding of the reader of items. */
  lemma ItemFollows(text: string, c: char, n: nat, item: string, rest: string)
    requires LetterAt(text) == Letter(c, n) && ItemAt(text[n..]) == (item, rest)
    ensures ItemAt(text) == ([c] + item, rest)
  {
    hide LetterAt;
  }

  lemma TailIsPlain(item: string)
    requires IsPlain(item) && item != ""
    ensures IsPlain(item[1..]) && item[0] != '/' && item[0] != '\\'
  {
    assert item == [item[0]] + item[1..];
  }

  lemma PlainLetter(c: char, more: string)
    requires c != '/' && c != '\\'
    ensures var text := [c] + more; LetterAt(text) == Letter(c, 1) && text[1..] == more
  {}

  lemma {:induction false} PlainItemIsRead(item: string, rest: string)
    requires IsPlain(item) && (rest == "" || rest[0] == '/')
    ensures ItemAt(item + rest) == (item, rest)
  {
    if item == "" {
      assert item + rest == rest;
    } else {
      hide IsPlain;
      hide ItemAt;
      TailIsPlain(item);
      PlainItemIsRead(item[1..], rest);
      hide LetterAt;
      PlainLetter(item[0], item[1..] + rest);
      assert item + rest == [item[0]] + (item[1..] + rest);
      ItemFollows(item + rest, item[0], 1, item[1..], rest);
      assert [item[0]] + item[1..] == item;
    }
  }

  lemma {:induction false} PlainStackIsRead(stack: seq<string>)
    requires Clean(stack) && PlainStack(stack)
    ensures ItemsFrom(Joined(stack)) == stack && SkipSlashes(Joined(stack)) == Joined(stack)
  {
    if stack == [] {
      NoItems();
    } else {
      hide LetterAt;
      var rest := if |stack| == 1 then "" else "/" + Joined(stack[1..]);
      assert Joined(stack) == stack[0] + rest;
      assert stack[0][0] in stack[0];
      PlainStackIsRead(stack[1..]);
      PlainItemIsRead(stack[0], rest);
      AfterItem(stack[1..], rest);
      assert stack == [stack[0]] + stack[1..];
      hide IsPlain;
      hide ItemAt;
    }
  }

  lemma AfterItem(others: seq<string>, rest: string)
    requires rest == if others == [] then "" else "/" + Joined(others)
    requires SkipSlashes(Joined(others)) == Joined(others)
    ensures SkipSlashes(rest) == Joined(others)
  {
    if others != [] { assert rest[1..] == Joined(others); }
  }

  /** The text of a stack leads back to it exactly if no item contains a slash or a backslash. */
  lemma ReadAgainExactlyWhen(stack: seq<string>)
    requires Clean(stack)
    ensures Pushed([], PathText(stack, true)) == stack <==> PlainStack(stack)
  {
    if PlainStack(stack) { PlainReadsAgain(stack); }
    if Pushed([], PathText(stack, true)) == stack { ReadsAgainIsPlain(stack); }
  }

  lemma PlainReadsAgain(stack: seq<string>)
    requires Clean(stack) && PlainStack(stack)
    ensures Pushed([], PathText(stack, true)) == stack
  {
    var text := PathText(stack, true);
    PlainStackIsRead(stack);
    assert text[1..] == Joined(stack);
    CleanIsKept([], stack);
    assert [] + stack == stack;
  }

  lemma ReadsAgainIsPlain(stack: seq<string>)
    requires Pushed([], PathText(stack, true)) == stack
    ensures PlainStack(stack)
  {
    if stack != [] {
      var text := PathText(stack, true);
      var rest := SkipSlashes(text);
      assert text[0] == '/' && Pushed([], text) == Applied([], ItemsFrom(rest));
      TotalIsLength(stack);
      AppliedIsNoLonger([], ItemsFrom(rest));
      ItemsAreNoLonger(rest);
      NoItems();
      hide ItemsFrom;
      assert rest != "" && '\\' !in rest;
      ItemsArePlain(rest);
      AppliedIsFrom([], ItemsFrom(rest));
    }
  }

  /** Every character behind a backslash. */
  function EscapedItem(item: string): string { if item == "" then "" else ['\\', item[0]] + EscapedItem(item[1..]) }

  lemma {:induction false} EscapedItemIsRead(item: string)
    ensures ItemAt(EscapedItem(item)) == (item, "")
  {
    if item != "" {
      var text, more := EscapedItem(item), EscapedItem(item[1..]);
      EscapedItemIsRead(item[1..]);
      hide ItemAt;
      assert text[0] == '\\' && text[1] == item[0] && text[2..] == more;
      assert more != "" ==> text[2] == '\\' && !IsHex('\\');
      assert LetterAt(text) == Letter(item[0], 2);
      hide LetterAt;
      ItemFollows(text, item[0], 2, item[1..], "");
      assert item == [item[0]] + item[1..];
    }
  }

  /** Any name can be pushed, escaped, as one item, also one with slashes in it, whose text then reads as more. */
  lemma AnyItemCanBePushed(stack: seq<string>, item: string)
    requires IsClean(item)
    ensures Pushed(stack, EscapedItem(item)) == stack + [item]
  {
    var text := EscapedItem(item);
    EscapedItemIsRead(item);
    NoItems();
    assert text[0] == '\\';
    hide ItemAt;
    assert SkipSlashes("") == "";
    assert Items(text) == [item] + [] == [item];
    hide Items;
    CleanIsKept(stack, [item]);
  }

  // ----- what single items do -----

  lemma OneItem(name: string)
    requires name != "" && IsPlain(name)
    ensures Items(name) == [name] && !IsAbsolute(name)
  {
    TailIsPlain(name);
    assert name + "" == name;
    PlainItemIsRead(name, "");
    NoItems();
    hide ItemAt;
    assert SkipSlashes("") == "";
    assert [name] + [] == [name];
  }

  lemma DotsPushed(stack: seq<string>)
    ensures Pushed(stack, "..") == (if stack == [] then [] else stack[..|stack| - 1]) && Pushed(stack, ".") == stack
  {
    OneItem("..");
    OneItem(".");
    hide Items;
    hide IsPlain;
    FirstApplied(stack, [".."]);
    FirstApplied(stack, ["."]);
    NoneApplied(OneApplied(stack, ".."));
    NoneApplied(OneApplied(stack, "."));
    hide Applied;
  }

  lemma DotsAreRelative()
    ensures !IsAbsolute("..") && !IsAbsolute(".")
  {}

  /** Behind a piece, `..` takes off the last item of the stack, if there is one, and `.` does nothing. */
  lemma DotsBehindPiece(stack: seq<string>, p: string)
    requires p != "" && TrailingBackslashes(p) % 2 == 0
    ensures var s := Pushed(stack, p);
            && Pushed(stack, p + "/" + "..") == (if s == [] then [] else s[..|s| - 1])
            && Pushed(stack, p + "/" + ".") == s
  {
    hide *;
    DotsAreRelative();
    PushedOneByOne(stack, p, "..");
    PushedOneByOne(stack, p, ".");
    DotsPushed(Pushed(stack, p));
  }

  lemma {:induction false} NoBackslash(items: seq<string>)
    requires PlainStack(items)
    ensures '\\' !in Joined(items)
  {
    if |items| > 1 {
      NoBackslash(items[1..]);
      assert '\\' !in items[0] && '\\' !in "/";
    }
  }

  lemma ItemsOfText(items: seq<string>)
    requires items != [] && Clean(items) && PlainStack(items)
    ensures var p := Joined(items);
            && p != "" && !IsAbsolute(p) && TrailingBackslashes(p) == 0
            && Items(p) == items && Items("/" + p) == items && IsAbsolute("/" + p)
  {
    var p := Joined(items);
    PlainStackIsRead(items);
    NoBackslash(items);
    assert p != "" by { assert items[0] != ""; }
    hide Joined;
    hide ItemsFrom;
    assert SkipSlashes(p) == p;
    assert ("/" + p)[1..] == p;
    assert p[|p| - 1] in p;
  }

  /**
   A relative piece of items with slashes between them pushes these; followed by `..` it pushes all but
   the last, and behind a slash it starts over.
   */
  lemma PieceOfItems(stack: seq<string>, items: seq<string>)
    requires items != [] && Clean(items) && PlainStack(items)
    ensures Pushed(stack, Joined(items)) == stack + items
    ensures Pushed(stack, Joined(items) + "/" + "..") == stack + items[..|items| - 1]
    ensures Pushed(stack, "/" + Joined(items)) == items
  {
    hide *;
    var p := Joined(items);
    ItemsOfText(items);
    PushedIs(stack, p);
    PushedIs(stack, "/" + p);
    CleanIsKept(stack, items);
    CleanIsKept([], items);
    assert [] + items == items;
    DotsBehindPiece(stack, p);
    assert (stack + items)[..|stack + items| - 1] == stack + items[..|items| - 1];
  }

  lemma PushedIs(stack: seq<string>, text: string)
    ensures Pushed(stack, text) == Applied(if IsAbsolute(text) then [] else stack, Items(text))
  {}

  const HEX_DIGITS: string := "0123456789abcdef"

  lemma HexDigitIs(k: nat)
    requires k < 16
    ensures IsHex(HEX_DIGITS[k]) && HexValue(HEX_DIGITS[k]) == k
    ensures k >= 10 ==> var upper := (HEX_DIGITS[k] as int - 32) as char; IsHex(upper) && HexValue(upper) == k
  {}

  /** `\xHH` stands for the character with that code, also for a slash. */
  lemma HexEscape(h: nat, l: nat, rest: string)
    requires h < 16 && l < 16
    ensures LetterAt("\\x" + [HEX_DIGITS[h], HEX_DIGITS[l]] + rest) == Letter((16 * h + l) as char, 4)
    ensures rest == "" ==> Items("\\x" + [HEX_DIGITS[h], HEX_DIGITS[l]]) == [[(16 * h + l) as char]]
  {
    HexDigitIs(h);
    HexDigitIs(l);
    var text := "\\x" + [HEX_DIGITS[h], HEX_DIGITS[l]];
    var x, y, c := HEX_DIGITS[h], HEX_DIGITS[l], (16 * h + l) as char;
    hide HEX_DIGITS;
    assert (text + rest)[0] == '\\' && (text + rest)[1] == 'x' && (text + rest)[2] == x && (text + rest)[3] == y;
    assert LetterAt(text + rest) == Letter(c, 4);
    if rest == "" {
      assert text + rest == text && text[4..] == "";
      NoItems();
      hide LetterAt;
      assert LetterAt("") == NoLetter;
      ItemFollows(text, c, 4, "", "");
      hide ItemAt;
      assert [c] + "" == [c] && SkipSlashes("") == "" && [[c]] + [] == [[c]];
    }
  }
}
