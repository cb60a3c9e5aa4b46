/** Printing a numeric variable (libpqtypes, numerics.c), and the way from a text to a text. */
module NumericPrinting {
  import opened Basics
  import opened Decimals
  import opened Numerics
  import opened NumericText

  // ----- groups of four digits -----

  /** The digit of weight `weight - d`; zero where nothing is stored. */
  function GroupAt(kept: Digits, d: int): nat { if 0 <= d < |kept| then kept[d] else 0 }

  function Groups(kept: Digits, from: int, n: nat): (g: Digits)
    ensures |g| == n && forall k :: 0 <= k < n ==> g[k] == GroupAt(kept, from + k)
  {
    if n == 0 then [] else Groups(kept, from, n - 1) + [GroupAt(kept, from + n - 1)]
  }

  lemma GroupsAreBelow(kept: Digits, d: int)
    requires Below(kept, NBASE)
    ensures GroupAt(kept, d) < NBASE
  {}

  lemma GroupsJoined(kept: Digits, from: int, n: nat, k: nat)
    ensures Groups(kept, from, n) + Groups(kept, from + n, k) == Groups(kept, from, n + k)
  {}

  /** All digits are among the groups, with zeros around them. */
  lemma GroupsNumber(kept: Digits, from: int, n: nat)
    requires from <= 0 && from + n >= |kept|
    ensures Number(Groups(kept, from, n), NBASE) == Number(kept, NBASE) * Pow(NBASE, from + n - |kept|)
  {
    hide Number;
    var before: nat, behind := -from, from + n - |kept|;
    assert Groups(kept, from, n) == Zeros(before) + kept + Zeros(behind);
    NumberPadded(kept, before, behind, NBASE);
  }

  // ----- printing one group -----

  /** A group as text: all four digits, or without leading zeros. */
  predicate IsGroupText(s: string, group: nat, full: bool) {
    && AllDigits(s) && Number(DigitsOf(s), 10) == group
    && if full then |s| == 4 else 1 <= |s| <= 4 && (|s| == 1 || s[0] != '0')
  }

  predicate IsChar(c: char, digit: nat) { digit < 10 && c == ('0' as int + digit) as char }

  lemma GroupText(s: string, group: nat, a: nat, b: nat, c: nat, d: nat, full: bool)
    requires group == ((a * 10 + b) * 10 + c) * 10 + d && |s| <= 4
    requires a < 10 && b < 10 && c < 10 && d < 10
    requires |s| == if full || a > 0 then 4 else if b > 0 then 3 else if c > 0 then 2 else 1
    requires forall k :: 0 <= k < |s| ==> IsChar(s[k], [a, b, c, d][k + 4 - |s|])
    ensures IsGroupText(s, group, full)
  {
    FourDigits(a, b, c, d);
    assert Zeros(4 - |s|) + DigitsOf(s) == [a, b, c, d] by {
      forall k | 0 <= k < |s| ensures DigitsOf(s)[k] == [a, b, c, d][k + 4 - |s|] { assert IsChar(s[k], [a, b, c, d][k + 4 - |s|]); }
    }
    LeadingZeros(DigitsOf(s), 4 - |s|, 10);
  }

  method PutChar(out: array<char>, cp: nat, digit: nat) returns (next: nat)
    requires cp < out.Length && digit < 10
    modifies out
    ensures next == cp + 1 && out[..next] == old(out[..cp]) + [('0' as int + digit) as char]
  {
    out[cp] := ('0' as int + digit) as char;
    next := cp + 1;
  }

  /** A group before the point; of the first one leading zeros are left out. */
  method PutGroup(out: array<char>, cp0: nat, group: nat, d: nat) returns (cp: nat, ghost s: string)
    requires group < NBASE && cp0 + 4 <= out.Length
    modifies out
    ensures cp == cp0 + |s| <= out.Length && out[..cp] == old(out[..cp0]) + s && IsGroupText(s, group, d > 0)
  {
    hide IsGroupText;
    cp, s := cp0, "";
    var dig, putit := group, d > 0;
    var d1 := dig / 1000;
    ghost var a := d1;
    dig := dig - d1 * 1000;
    putit := putit || d1 > 0;
    if putit {
      cp := PutChar(out, cp, d1);
      s := s + [('0' as int + d1) as char];
    }
    d1 := dig / 100;
    ghost var b := d1;
    dig := dig - d1 * 100;
    putit := putit || d1 > 0;
    if putit {
      cp := PutChar(out, cp, d1);
      s := s + [('0' as int + d1) as char];
    }
    d1 := dig / 10;
    ghost var c := d1;
    dig := dig - d1 * 10;
    putit := putit || d1 > 0;
    if putit {
      cp := PutChar(out, cp, d1);
      s := s + [('0' as int + d1) as char];
    }
    cp := PutChar(out, cp, dig);
    s := s + [('0' as int + dig) as char];
    GroupText(s, group, a, b, c, dig, d > 0);
  }

  /** A group behind the point. */
  method PutFullGroup(out: array<char>, cp0: nat, group: nat) returns (cp: nat, ghost s: string)
    requires group < NBASE && cp0 + 4 <= out.Length
    modifies out
    ensures cp == cp0 + |s| <= out.Length && out[..cp] == old(out[..cp0]) + s && IsGroupText(s, group, true)
  {
    hide IsGroupText;
    var dig := group;
    var a := dig / 1000;
    dig := dig - a * 1000;
    cp := PutChar(out, cp0, a);
    var b := dig / 100;
    dig := dig - b * 100;
    cp := PutChar(out, cp, b);
    var c := dig / 10;
    dig := dig - c * 10;
    cp := PutChar(out, cp, c);
    cp := PutChar(out, cp, dig);
    s := [('0' as int + a) as char, ('0' as int + b) as char, ('0' as int + c) as char, ('0' as int + dig) as char];
    assert out[..cp] == old(out[..cp0]) + s;
    GroupText(s, group, a, b, c, dig, true);
  }

  // ----- printing -----

  /** A text of digits makes the same number as these groups. */
  predicate Prints(s: string, groups: Digits) {
    AllDigits(s) && Number(DigitsOf(s), 10) == Number(groups, NBASE)
  }

  lemma OneMorePrinted(s: string, groups: Digits, t: string, group: nat)
    requires Prints(s, groups) && IsGroupText(t, group, true)
    ensures Prints(s + t, groups + [group])
  {
    DigitsOfJoined(s, t);
    NumberJoined(DigitsOf(s), DigitsOf(t), 10);
    NumberJoined(groups, [group], NBASE);
    OneDigit(group, NBASE);
    hide Number;
    PowersOfTenThousand(1);
    assert Pow(NBASE, 1) == NBASE * Pow(NBASE, 0) == NBASE;
  }

  lemma FirstPrinted(t: string, group: nat)
    requires IsGroupText(t, group, false)
    ensures Prints(t, [group])
  {
    OneDigit(group, NBASE);
  }

  /** How many digits might stand before the point. */
  function IntegerRoom(weight: int): nat { if weight >= 0 then 4 * (weight + 1) else 1 }

  /** The digits before the point; a lone zero if there are none. */
  method PutInteger(out: array<char>, cp0: nat, v: NumericVar) returns (cp: nat, ghost ip: string)
    requires v.Valid() && cp0 + IntegerRoom(v.weight) <= out.Length
    modifies out
    ensures cp == cp0 + |ip| <= out.Length && out[..cp] == old(out[..cp0]) + ip
    ensures 1 <= |ip| <= IntegerRoom(v.weight)
    ensures Prints(ip, Groups(v.Kept(), 0, BeforePoint(v.weight)))
    ensures v.IsNormal() ==> |ip| == 1 || ip[0] != '0'
  {
    hide IsGroupText;
    hide Prints;
    hide Below;
    ghost var kept := v.Kept();
    cp, ip := cp0, "";
    if v.weight < 0 {
      cp := PutChar(out, cp, 0);
      ip := "0";
      ZeroPrints();
    } else {
      var d := 0;
      while d <= v.weight
        invariant 0 <= d <= v.weight + 1 && cp == cp0 + |ip| && |ip| <= 4 * d && out[..cp] == old(out[..cp0]) + ip
        invariant d > 0 ==> |ip| >= 1 && Prints(ip, Groups(kept, 0, d))
        invariant d == 1 ==> |ip| == 1 || ip[0] != '0'
        invariant d > 0 && GroupAt(kept, 0) > 0 ==> ip[0] != '0'
        modifies out
      {
        var dig := if d < v.ndigits then v.buf[v.first + d] else 0;
        assert dig == GroupAt(kept, d);
        KeptIsBelow(v);
        GroupsAreBelow(kept, d);
        ghost var s;
        cp, s := PutGroup(out, cp, dig, d);
        GroupFacts(s, dig, d > 0);
        if d == 0 { FirstPrinted(s, dig); } else { OneMorePrinted(ip, Groups(kept, 0, d), s, dig); }
        assert Groups(kept, 0, d + 1) == Groups(kept, 0, d) + [dig];
        if d == 0 {
          assert Groups(kept, 0, d + 1)[0] == dig;
          assert Groups(kept, 0, d + 1) == [dig] && ip + s == s;
        }
        ip := ip + s;
        d := d + 1;
      }
    }
  }

  lemma ZeroPrints()
    ensures Prints("0", Groups([], 0, 0)) && forall kept: Digits :: Groups(kept, 0, 0) == []
  {
    OneDigit(0, 10);
    assert DigitsOf("0") == [0];
  }

  lemma KeptIsBelow(v: NumericVar)
    requires v.Valid()
    ensures Below(v.Kept(), NBASE)
  {}

  lemma GroupFacts(s: string, group: nat, full: bool)
    requires IsGroupText(s, group, full)
    ensures 1 <= |s| <= 4 && AllDigits(s) && (!full ==> |s| == 1 || s[0] != '0')
    ensures full ==> |s| == 4
    ensures !full && group > 0 ==> s[0] != '0'
  {
    if |s| == 1 {
      OneDigit(DigitOf(s[0]), 10);
      assert DigitsOf(s) == [DigitOf(s[0])];
    }
  }

  /** One more group behind the point. */
  method PutNext(out: array<char>, cp0: nat, v: NumericVar, d: int, ghost full: string, ghost groups: nat) returns (cp: nat, ghost s: string)
    requires v.Valid() && cp0 + 4 <= out.Length && d == v.weight + 1 + groups
    requires Prints(full, Groups(v.Kept(), v.weight + 1, groups))
    modifies out
    ensures cp == cp0 + 4 && |s| == 4 && out[..cp] == old(out[..cp0]) + s
    ensures Prints(full + s, Groups(v.Kept(), v.weight + 1, groups + 1))
  {
    hide IsGroupText;
    hide Prints;
    hide Below;
    ghost var kept := v.Kept();
    var dig := if d >= 0 && d < v.ndigits then v.buf[v.first + d] else 0;
    assert dig == GroupAt(kept, d);
    KeptIsBelow(v);
    GroupsAreBelow(kept, d);
    cp, s := PutFullGroup(out, cp0, dig);
    GroupFacts(s, dig, true);
    OneMorePrinted(full, Groups(kept, v.weight + 1, groups), s, dig);
    assert Groups(kept, v.weight + 1, groups + 1) == Groups(kept, v.weight + 1, groups) + [dig];
  }

  /** The point and `dscale` digits; up to three digits too many are written and then given up. */
  method PutFraction(out: array<char>, cp0: nat, v: NumericVar, dscale: nat) returns (cp: nat, ghost full: string, ghost groups: nat)
    requires v.Valid() && 0 < dscale && cp0 + 1 + dscale + 3 <= out.Length
    modifies out
    ensures groups == (dscale + 3) / 4 && |full| == 4 * groups && cp == cp0 + 1 + dscale <= out.Length
    ensures out[..cp] == old(out[..cp0]) + "." + full[..dscale]
    ensures Prints(full, Groups(v.Kept(), v.weight + 1, groups))
  {
    hide IsGroupText;
    hide Prints;
    hide Below;
    ghost var kept := v.Kept();
    out[cp0] := '.';
    cp := cp0 + 1;
    assert out[..cp] == old(out[..cp0]) + ".";
    var endcp := cp + dscale;
    var i, d := 0, v.weight + 1;
    full, groups := "", 0;
    NothingPrints(kept, v.weight + 1);
    while i < dscale
      invariant i == 4 * groups == |full| && i < dscale + 4 && d == v.weight + 1 + groups && cp == cp0 + 1 + i
      invariant cp <= out.Length && out[..cp] == old(out[..cp0]) + "." + full && Prints(full, Groups(kept, v.weight + 1, groups))
      modifies out
    {
      ghost var s;
      cp, s := PutNext(out, cp, v, d, full, groups);
      assert old(out[..cp0]) + "." + (full + s) == old(out[..cp0]) + "." + full + s;
      full, groups := full + s, groups + 1;
      d := d + 1;
      i := i + DEC_DIGITS;
    }
    assert (old(out[..cp0]) + "." + full)[..endcp] == old(out[..cp0]) + "." + full[..dscale];
    cp := endcp;
  }

  lemma NothingPrints(kept: Digits, from: int)
    ensures Prints("", Groups(kept, from, 0))
  {
    assert DigitsOf("") == [] && Groups(kept, from, 0) == [];
  }

  // ----- what is printed -----

  /** Number of groups before the point. */
  function BeforePoint(weight: int): nat { if weight >= 0 then weight + 1 else 0 }

  /** Digits before the point, and behind it if any are asked for. */
  predicate IsNumeral(ip: string, fp: string) { AllDigits(ip) && AllDigits(fp) && ip != "" }

  function TextOf(negative: bool, ip: string, fp: string): string {
    (if negative then "-" else "") + ip + (if fp == "" then "" else "." + fp)
  }

  /** The buffer starts with the text and a zero character. */
  predicate Holds(cells: seq<char>, text: string) {
    |text| < |cells| && cells[..|text|] == text && cells[|text|] == 0 as char
  }

  /** Before and behind the point, all groups together. */
  lemma GroupsAroundPoint(kept: Digits, weight: int, groups: nat)
    requires |kept| <= weight + 1 + groups
    ensures Number(Groups(kept, 0, BeforePoint(weight)) + Groups(kept, weight + 1, groups), NBASE)
         == Number(kept, NBASE) * Pow(NBASE, weight + 1 + groups - |kept|)
  {
    hide Number;
    if weight >= 0 {
      GroupsJoined(kept, 0, weight + 1, groups);
      GroupsNumber(kept, 0, weight + 1 + groups);
    } else {
      assert Groups(kept, 0, 0) + Groups(kept, weight + 1, groups) == Groups(kept, weight + 1, groups);
      GroupsNumber(kept, weight + 1, groups);
    }
  }

  /** The number all printed digits make, before the last ones are given up. */
  lemma PrintedNumber(kept: Digits, weight: int, dscale: nat, groups: nat, m: nat)
    requires groups == (dscale + 3) / 4 && Magnitude(kept, weight) == Multiple(m, dscale)
    requires 4 * |kept| < 4 * (weight + 1) + dscale + 4 || kept == []
    ensures Number(Groups(kept, 0, BeforePoint(weight)) + Groups(kept, weight + 1, groups), NBASE) == m * Pow(10, 4 * groups - dscale)
  {
    hide *;
    if kept == [] {
      NothingIsPrinted(weight, dscale, groups, m);
    } else {
      GroupsAroundPoint(kept, weight, groups);
      WholeMultiple(kept, weight, dscale, 4 * groups - dscale, weight + 1 + groups - |kept|, m);
    }
  }

  lemma NothingIsPrinted(weight: int, dscale: nat, groups: nat, m: nat)
    requires Magnitude([], weight) == Multiple(m, dscale)
    ensures m == 0 && 0 * Pow(10, 4 * ((dscale + 3) / 4) - dscale) == 0
    ensures Number(Groups([], 0, BeforePoint(weight)) + Groups([], weight + 1, groups), NBASE) == 0
  {
    NoDigitsIsZero(weight);
    hide Magnitude;
    NotAnyUnit(m, dscale);
    hide Multiple;
    hide Number;
    hide Pow;
    var n := BeforePoint(weight) + groups;
    assert Groups([], 0, BeforePoint(weight)) + Groups([], weight + 1, groups) == Zeros(n);
    NumberOfZeros(n, NBASE);
  }

  lemma NotAnyUnit(m: nat, dscale: int)
    requires Multiple(m, dscale) == 0.0
    ensures m == 0
  {
    hide Tens;
    if m > 0 { SameOrder(0.0, m as real, Tens(-dscale)); }
  }

  lemma WholeMultiple(kept: Digits, weight: int, dscale: int, spare: nat, behind: nat, m: nat)
    requires Magnitude(kept, weight) == Multiple(m, dscale) && 0 <= dscale + spare == 4 * behind - 4 * (weight + 1 - |kept|)
    ensures Number(kept, NBASE) * Pow(NBASE, behind) == m * Pow(10, spare)
  {
    hide *;
    var all := dscale + spare;
    ScaledMagnitude(kept, weight, all);
    PowersOfTenThousand(behind);
    TensOfNat(4 * behind);
    TensOfNat(spare);
    MultipleIs(m, dscale);
    TensAdds(-dscale, all);
    Rescale(Multiple(m, dscale), m as real, Tens(-dscale), Tens(all), Tens(spare));
    RealProduct(Number(kept, NBASE), Pow(NBASE, behind));
    RealProduct(m, Pow(10, spare));
  }

  /** Only zeros are given up: what stays is the number itself. */
  lemma GivenUp(ip: string, full: string, dscale: nat, m: nat)
    requires dscale <= |full| && AllDigits(ip) && AllDigits(full)
    requires Number(DigitsOf(ip + full), 10) == m * Pow(10, |full| - dscale)
    ensures Number(DigitsOf(ip + full[..dscale]), 10) == m
  {
    hide Number;
    hide Pow;
    var head, z := ip + full[..dscale], full[dscale..];
    assert ip + full == head + z;
    DigitsOfJoined(head, z);
    NumberJoined(DigitsOf(head), DigitsOf(z), 10);
    NumberBound(DigitsOf(z), 10);
    hide *;
    LastDigit(Number(DigitsOf(head), 10), m, Number(DigitsOf(z), 10), 0, Pow(10, |z|));
  }

  lemma PrintedTogether(ip: string, full: string, before: Digits, behind: Digits)
    requires Prints(ip, before) && Prints(full, behind) && |full| == 4 * |behind|
    ensures Number(DigitsOf(ip + full), 10) == Number(before + behind, NBASE)
  {
    DigitsOfJoined(ip, full);
    NumberJoined(DigitsOf(ip), DigitsOf(full), 10);
    NumberJoined(before, behind, NBASE);
    PowersOfTenThousand(|behind|);
  }

  /** The text printed is that of the rounded number. */
  lemma PrintedText(v: NumericVar, kept: Digits, weight: int, dscale: nat, ip: string, full: string, groups: nat, m: nat)
    requires groups == (dscale + 3) / 4 && |full| == 4 * groups && Magnitude(kept, weight) == Multiple(m, dscale)
    requires 4 * |kept| < 4 * (weight + 1) + dscale + 4 || kept == []
    requires Prints(ip, Groups(kept, 0, BeforePoint(weight))) && Prints(full, Groups(kept, weight + 1, groups))
    ensures AllDigits(ip) && AllDigits(full[..dscale]) && Number(DigitsOf(ip + full[..dscale]), 10) == m
  {
    PrintsDigits(ip, Groups(kept, 0, BeforePoint(weight)));
    PrintsDigits(full, Groups(kept, weight + 1, groups));
    assert AllDigits(full[..dscale]);
    hide *;
    PrintedNumber(kept, weight, dscale, groups, m);
    PrintedTogether(ip, full, Groups(kept, 0, BeforePoint(weight)), Groups(kept, weight + 1, groups));
    GivenUp(ip, full, dscale, m);
  }

  lemma PrintsDigits(s: string, groups: Digits)
    requires Prints(s, groups)
    ensures AllDigits(s)
  {}

  function AtLeastZero(x: int): nat { if x < 0 then 0 else x }

  /**
   Prints a variable, rounded to `dscale0` digits behind the point, and ends the text with a zero
   character. Fails exactly if the buffer is not longer than what might be needed.
   */
  method Num2Str(out: array<char>, v: NumericVar, dscale0: int) returns (ok: bool, ghost ip: string, ghost fp: string, ghost m: nat)
    requires v.Valid() && v.HasRoom(AtLeastZero(dscale0))
    modifies v, v.buf, out
    ensures v.Valid() && v.buf == old(v.buf) && (v.sign == old(v.sign) || v.sign == Pos)
    ensures IsNearest(old(Magnitude(v.Kept(), v.weight)), AtLeastZero(dscale0), m)
    ensures Magnitude(v.Kept(), v.weight) == Multiple(m, AtLeastZero(dscale0))
    ensures v.weight == old(v.weight) || v.NoZeroInFront()
    ensures ok <==> out.Length > IntegerRoom(v.weight) + AtLeastZero(dscale0) + 6
    ensures ok ==>
              && IsNumeral(ip, fp) && |fp| == AtLeastZero(dscale0) && Number(DigitsOf(ip + fp), 10) == m
              && Holds(out[..], TextOf(v.sign == Neg, ip, fp))
              && (old(v.IsNormal()) ==> |ip| == 1 || ip[0] != '0')
              && (v.sign == old(v.sign) || m == 0)
  {
    hide Number;
    hide Magnitude;
    hide IsNearest;
    hide Multiple;
    hide Tens;
    hide Below;
    hide Holds;
    hide IsNumeral;
    var dscale := dscale0;
    if dscale < 0 { dscale := 0; }
    m := v.RoundVar(dscale);
    var i := (v.weight + 1) * DEC_DIGITS;
    if i <= 0 { i := 1; }
    ip, fp := "", "";
    ok := out.Length > i + dscale + DEC_DIGITS + 2;
    if !ok { return; }
    NoMagnitude(v, dscale, m);
    ip, fp := PutText(out, v, dscale, m);
  }

  lemma NoMagnitude(v: NumericVar, dscale: int, m: nat)
    requires v.Valid() && Magnitude(v.Kept(), v.weight) == Multiple(m, dscale)
    ensures v.Kept() == [] ==> m == 0
  {
    NoDigitsIsZero(v.weight);
    hide Multiple;
    hide Magnitude;
    if v.Kept() == [] { NotAnyUnit(m, dscale); }
  }

  /** The text of a variable that is rounded already. */
  method PutText(out: array<char>, v: NumericVar, dscale: nat, ghost m: nat) returns (ghost ip: string, ghost fp: string)
    requires v.Valid() && Magnitude(v.Kept(), v.weight) == Multiple(m, dscale)
    requires 4 * v.ndigits < 4 * (v.weight + 1) + dscale + 4 || v.Kept() == []
    requires out.Length > IntegerRoom(v.weight) + dscale + 6
    modifies out
    ensures IsNumeral(ip, fp) && |fp| == dscale && Number(DigitsOf(ip + fp), 10) == m
    ensures Holds(out[..], TextOf(v.sign == Neg, ip, fp))
    ensures v.IsNormal() ==> |ip| == 1 || ip[0] != '0'
  {
    hide *;
    ValidIs(v);
    var cp := PutSign(out, v.sign);
    cp, ip := PutInteger(out, cp, v);
    ghost var full, groups;
    cp, full, groups := PutBehindPoint(out, cp, v, dscale);
    fp := full[..dscale];
    PrintedText(v, v.Kept(), v.weight, dscale, ip, full, groups, m);
    TextParts(v.sign == Neg, ip, fp);
    Terminate(out, cp);
  }

  method PutSign(out: array<char>, sign: Sign) returns (cp: nat)
    requires out.Length > 0
    modifies out
    ensures cp == (if sign == Neg then 1 else 0) && out[..cp] == if sign == Neg then "-" else ""
  {
    cp := 0;
    if sign == Neg {
      out[cp] := '-';
      cp := cp + 1;
    }
  }

  /** The point and the digits behind it, if any are asked for. */
  method PutBehindPoint(out: array<char>, cp0: nat, v: NumericVar, dscale: nat) returns (cp: nat, ghost full: string, ghost groups: nat)
    requires v.Valid() && cp0 + 1 + dscale + 3 <= out.Length
    modifies out
    ensures groups == (dscale + 3) / 4 && |full| == 4 * groups && cp <= cp0 + 1 + dscale
    ensures out[..cp] == old(out[..cp0]) + Behind(full[..dscale])
    ensures Prints(full, Groups(v.Kept(), v.weight + 1, groups))
  {
    hide NumericVar.Valid;
    hide Prints;
    cp, full, groups := cp0, "", 0;
    if dscale > 0 {
      cp, full, groups := PutFraction(out, cp, v, dscale);
      assert old(out[..cp0]) + "." + full[..dscale] == old(out[..cp0]) + ("." + full[..dscale]);
    } else {
      NothingPrints(v.Kept(), v.weight + 1);
    }
  }

  function Behind(fp: string): string { if fp == "" then "" else "." + fp }

  lemma TextParts(negative: bool, ip: string, fp: string)
    ensures TextOf(negative, ip, fp) == (if negative then "-" else "") + ip + Behind(fp)
    ensures IsNumeral(ip, fp) <==> AllDigits(ip) && AllDigits(fp) && ip != ""
  {}

  /** The zero character at the end. */
  method Terminate(out: array<char>, cp: nat)
    requires cp < out.Length
    modifies out
    ensures Holds(out[..], old(out[..cp]))
  {
    out[cp] := 0 as char;
    assert out[..][..cp] == out[..cp] == old(out[..cp]);
  }

  // ----- from text to text -----

  lemma NoSpaceInFront(text: string)
    requires text != "" && (IsDigit(text[0]) || text[0] == '-')
    ensures text[Spaces(text)..] == text
  {
    assert Spaces(text) == 0;
  }

  lemma NothingFollows(d: Decimal)
    ensures ReadEnd(d, "") == Some(d)
  {}

  lemma MantissaOfNumeral(negative: bool, ip: string, fp: string)
    requires IsNumeral(ip, fp)
    ensures ReadMantissa(negative, ip + Behind(fp)) == Some(Decimal(negative, ip, fp, 0))
  {
    var t := ip + Behind(fp);
    assert t[..|ip|] == ip && t[|ip|..] == Behind(fp);
    assert fp != "" ==> t[|ip| + 1..] == Behind(fp)[1..] == fp && fp[..|fp|] == fp && fp[|fp|..] == "";
    assert !IsDigit('.');
    RunIs(t, |ip|);
    RunIs(fp, |fp|);
    hide *;
    MantissaParts(negative, t, ip, fp);
  }

  lemma MantissaParts(negative: bool, t: string, ip: string, fp: string)
    requires ip != "" && Run(t) == |ip| <= |t| && t[..|ip|] == ip && t[|ip|..] == Behind(fp) && Run(fp) == |fp|
    requires fp != "" ==> |t| > |ip| && t[|ip| + 1..] == fp && fp[..|fp|] == fp && fp[|fp|..] == ""
    ensures ReadMantissa(negative, t) == Some(Decimal(negative, ip, fp, 0))
  {
    hide Run;
    NothingFollows(Decimal(negative, ip, fp, 0));
    hide ReadEnd;
    assert fp != "" ==> t[|ip|] == t[|ip|..][0] == '.';
  }

  /** What is printed reads back as just these digits. */
  lemma NumeralIsRead(negative: bool, ip: string, fp: string)
    requires IsNumeral(ip, fp)
    ensures ReadNumeric(TextOf(negative, ip, fp)) == Some(Decimal(negative, ip, fp, 0))
  {
    FirstIsDigit(ip, fp);
    TextIs(negative, ip, fp);
    hide *;
    SignedIsRead(negative, ip + Behind(fp));
    MantissaOfNumeral(negative, ip, fp);
  }

  lemma FirstIsDigit(ip: string, fp: string)
    requires IsNumeral(ip, fp)
    ensures |ip + Behind(fp)| > 0 && IsDigit((ip + Behind(fp))[0])
  {
    assert (ip + Behind(fp))[0] == ip[0];
  }

  lemma TextIs(negative: bool, ip: string, fp: string)
    ensures TextOf(negative, ip, fp) == if negative then "-" + (ip + Behind(fp)) else ip + Behind(fp)
  {
    assert "-" + ip + Behind(fp) == "-" + (ip + Behind(fp));
    assert "" + ip + Behind(fp) == ip + Behind(fp);
  }

  lemma SignedIsRead(negative: bool, t: string)
    requires |t| > 0 && IsDigit(t[0])
    ensures ReadNumeric(if negative then "-" + t else t) == ReadMantissa(negative, t)
  {
    hide ReadMantissa;
    if negative {
      NoSpaceInFront("-" + t);
      assert ("-" + t)[1..] == t;
    } else {
      NoSpaceInFront(t);
    }
  }

  /** Without leading zeros, and no minus before nothing. */
  predicate IsCanonical(text: string, negative: bool, ip: string, fp: string) {
    && IsNumeral(ip, fp) && text == TextOf(negative, ip, fp)
    && (|ip| == 1 || ip[0] != '0') && (negative ==> Number(DigitsOf(ip + fp), 10) > 0)
  }

  lemma {:induction false} SameDigitsSameText(a: string, b: string)
    requires AllDigits(a) && AllDigits(b) && DigitsOf(a) == DigitsOf(b)
    ensures a == b
  {
    assert |a| == |DigitsOf(a)| == |b|;
    forall k | 0 <= k < |a| ensures a[k] == b[k] { assert DigitsOf(a)[k] == DigitsOf(b)[k]; }
  }

  lemma PartsAreUnique(a: Digits, f: Digits, b: Digits, g: Digits)
    requires Below(a, 10) && Below(f, 10) && Below(b, 10) && Below(g, 10) && |f| == |g| && a != [] && b != []
    requires (|a| == 1 || a[0] > 0) && (|b| == 1 || b[0] > 0) && Number(a + f, 10) == Number(b + g, 10)
    ensures a == b && f == g
  {
    hide Number;
    hide Pow;
    NumberJoined(a, f, 10);
    NumberJoined(b, g, 10);
    NumberBound(f, 10);
    NumberBound(g, 10);
    hide Below;
    LastDigit(Number(a, 10), Number(b, 10), Number(f, 10), Number(g, 10), Pow(10, |f|));
    NumberIsUnique(f, g, 10);
    LeadingDigitIsUnique(a, b, 10);
  }

  /** There is one way to write a number with so many digits behind the point. */
  lemma NumeralIsUnique(ip: string, fp: string, ip2: string, fp2: string)
    requires IsNumeral(ip, fp) && IsNumeral(ip2, fp2) && |fp| == |fp2|
    requires (|ip| == 1 || ip[0] != '0') && (|ip2| == 1 || ip2[0] != '0')
    requires Number(DigitsOf(ip + fp), 10) == Number(DigitsOf(ip2 + fp2), 10)
    ensures ip == ip2 && fp == fp2
  {
    NumeralDigits(ip, fp);
    NumeralDigits(ip2, fp2);
    hide *;
    PartsAreUnique(DigitsOf(ip), DigitsOf(fp), DigitsOf(ip2), DigitsOf(fp2));
    SameDigitsSameText(fp, fp2);
    SameDigitsSameText(ip, ip2);
  }

  lemma NumeralDigits(ip: string, fp: string)
    requires IsNumeral(ip, fp)
    ensures DigitsOf(ip + fp) == DigitsOf(ip) + DigitsOf(fp) && DigitsOf(ip) != [] && |DigitsOf(ip)| == |ip| && |DigitsOf(fp)| == |fp|
    ensures AllDigits(ip) && AllDigits(fp) && Below(DigitsOf(ip), 10) && Below(DigitsOf(fp), 10)
    ensures ip[0] != '0' ==> DigitsOf(ip)[0] > 0
  {
    DigitsOfJoined(ip, fp);
    assert DigitsOf(ip)[0] == DigitOf(ip[0]);
  }

  /** What is read is a multiple of the unit of its last digit behind the point. */
  lemma ReadIsMultiple(d: Decimal) returns (m: nat)
    ensures d.Size() == Multiple(m, d.Scale())
    ensures d.exponent == 0 ==> m == Number(DigitsOf(d.ip + d.fp), 10)
  {
    var n := Number(DigitsOf(d.ip + d.fp), 10);
    if d.exponent <= |d.fp| {
      m := n;
    } else {
      var e := d.exponent - |d.fp|;
      m := n * Pow(10, e);
      TensOfNat(e);
      RealProduct(n, Pow(10, e));
      TensOfZero();
    }
  }

  /** Rounding to that unit needs no room in front. */
  lemma MultipleHasRoom(kept: Digits, weight: int, rscale: int, m: nat)
    requires Below(kept, NBASE) && Magnitude(kept, weight) == Multiple(m, rscale) && 4 * (weight + 1) + rscale >= 0
    ensures Magnitude(kept, weight) + Tens(-rscale) / 2.0 < Tens(4 * (weight + 1))
  {
    hide *;
    var di := 4 * (weight + 1) + rscale;
    MagnitudeBound(kept, weight);
    MultipleIs(m, rscale);
    TensOfNat(di);
    TensAdds(di, -rscale);
    HalfUnitMore(m, Pow(10, di), Tens(-rscale), Tens(4 * (weight + 1)), Multiple(m, rscale));
  }

  lemma HalfUnitMore(m: nat, bound: nat, unit: real, limit: real, product: real)
    requires unit > 0.0 && bound as real * unit == limit && m as real * unit == product < limit
    ensures product + unit / 2.0 < limit
  {
    SameOrder(m as real, bound as real, unit);
    NextWhole(m, bound);
    HalfMore(m as real, bound as real, unit, limit, product);
  }

  lemma NextWhole(m: nat, bound: nat)
    requires m as real < bound as real
    ensures m as real + 1.0 <= bound as real
  {
    assert m < bound;
    assert (m + 1) as real <= bound as real;
  }

  lemma HalfMore(m: real, bound: real, unit: real, limit: real, product: real)
    requires unit > 0.0 && m + 1.0 <= bound && bound * unit == limit && m * unit == product
    ensures product + unit / 2.0 < limit
  {
    SameOrder(m + 0.5, bound, unit);
    assert (m + 0.5) * unit == m * unit + unit / 2.0;
  }

  lemma MagnitudeBound(kept: Digits, weight: int)
    requires Below(kept, NBASE)
    ensures Magnitude(kept, weight) < Tens(4 * (weight + 1))
  {
    hide *;
    var a := 4 * (weight + 1 - |kept|);
    MagnitudeIsNumber(kept, weight);
    NumberBound(kept, NBASE);
    PowersOfTenThousand(|kept|);
    TensOfNat(4 * |kept|);
    TensAdds(4 * |kept|, a);
    SameOrder(Number(kept, NBASE) as real, Tens(4 * |kept|), Tens(a));
  }

  /** Sign and size of what was read. */
  lemma SizeOfRead(v: NumericVar, d: Decimal)
    requires v.Valid() && v.Value() == d.Value() && (v.sign == Neg <==> d.negative && v.Kept() != [])
    ensures Magnitude(v.Kept(), v.weight) == d.Size()
    ensures v.Kept() == [] ==> d.Size() == 0.0
  {
    NoDigitsIsZero(v.weight);
    hide Magnitude;
    hide Scaled;
  }

  lemma ReadHasRoom(v: NumericVar, d: Decimal, m: nat)
    requires v.Valid() && Magnitude(v.Kept(), v.weight) == d.Size() == Multiple(m, d.Scale())
    ensures v.HasRoom(d.Scale())
  {
    KeptIsBelow(v);
    hide Magnitude;
    hide Multiple;
    hide Tens;
    hide Below;
    if 4 * (v.weight + 1) + d.Scale() >= 0 { MultipleHasRoom(v.Kept(), v.weight, d.Scale(), m); }
  }

  lemma PrintedValue(d: Decimal, m: nat, negative: bool, ip: string, fp: string)
    requires d.Size() == Multiple(m, d.Scale()) && |fp| == d.Scale() && Number(DigitsOf(ip + fp), 10) == m
    requires negative == d.negative || m == 0
    ensures Decimal(negative, ip, fp, 0).Value() == d.Value()
  {
    hide Tens;
    hide Number;
    hide DigitsOf;
    if m == 0 { assert Multiple(m, d.Scale()) == 0.0; }
  }

  /** What `PutThenGet` knows of the text that comes out. */
  predicate IsPrintOf(d: Decimal, m: nat, negative: bool, ip: string, fp: string) {
    && IsNumeral(ip, fp) && (|ip| == 1 || ip[0] != '0') && |fp| == d.Scale() && Number(DigitsOf(ip + fp), 10) == m
    && d.Size() == Multiple(m, d.Scale()) && (d.exponent == 0 ==> m == Number(DigitsOf(d.ip + d.fp), 10))
    && (negative == d.negative || m == 0) && (negative ==> d.negative)
  }

  /** A canonical text is the only one of its number that prints like it. */
  lemma CanonicalIsPrinted(str: string, n: bool, i: string, f: string, m: nat, negative: bool, ip: string, fp: string)
    requires IsCanonical(str, n, i, f) && ReadNumeric(str).Some? && IsPrintOf(ReadNumeric(str).value, m, negative, ip, fp)
    ensures TextOf(negative, ip, fp) == str
  {
    hide ReadNumeric;
    hide Number;
    hide DigitsOf;
    hide Multiple;
    hide Scaled;
    NumeralIsRead(n, i, f);
    NumeralIsUnique(ip, fp, i, f);
  }

  lemma CanonicalComesBack(str: string, cells: seq<char>, m: nat, negative: bool, ip: string, fp: string)
    requires ReadNumeric(str).Some? && IsPrintOf(ReadNumeric(str).value, m, negative, ip, fp)
    requires Holds(cells, TextOf(negative, ip, fp))
    ensures forall n, i, f :: IsCanonical(str, n, i, f) ==> Holds(cells, str)
  {
    hide *;
    forall n, i, f | IsCanonical(str, n, i, f) ensures Holds(cells, str) {
      CanonicalIsPrinted(str, n, i, f, m, negative, ip, fp);
    }
  }

  lemma PrintIs(d: Decimal, m: nat, negative: bool, ip: string, fp: string)
    ensures IsPrintOf(d, m, negative, ip, fp) <==>
              && IsNumeral(ip, fp) && (|ip| == 1 || ip[0] != '0') && |fp| == d.Scale() && Number(DigitsOf(ip + fp), 10) == m
              && d.Size() == Multiple(m, d.Scale()) && (d.exponent == 0 ==> m == Number(DigitsOf(d.ip + d.fp), 10))
              && (negative == d.negative || m == 0) && (negative ==> d.negative)
    ensures IsPrintOf(d, m, negative, ip, fp) ==> Decimal(negative, ip, fp, 0).Value() == d.Value()
  {
    if IsPrintOf(d, m, negative, ip, fp) { PrintedValue(d, m, negative, ip, fp); }
    hide *;
  }

  lemma NothingHasNoSize(d: Decimal, m: nat)
    requires d.Size() == Multiple(m, d.Scale())
    ensures d.Size() == 0.0 ==> m == 0
  {
    hide Multiple;
    hide Scaled;
    if d.Size() == 0.0 { NotAnyUnit(m, d.Scale()); }
  }

  // ----- how long the buffer must be -----

  /** The number of digits from the first that is not a zero. */
  function Significant(text: string): (n: nat)
    ensures n <= |text| && (n > 0 ==> text[|text| - n] != '0') && forall k :: 0 <= k < |text| - n ==> text[k] == '0'
  {
    if text == "" then 0 else if text[0] == '0' then Significant(text[1..]) else |text|
  }

  /** The room for the digits before the point: whole groups of four, or a single zero; four for nothing. */
  function PrintRoom(d: Decimal): nat {
    var n := Significant(d.ip + d.fp);
    var before := n - |d.fp| + d.exponent;
    if n == 0 then 4 else if before <= 0 then 1 else (before + 3) / 4 * 4
  }

  lemma SignificantNumber(text: string)
    requires AllDigits(text)
    ensures var n, number := Significant(text), Number(DigitsOf(text), 10);
            if n == 0 then number == 0 else Pow(10, n - 1) <= number < Pow(10, n)
  {
    var n := Significant(text);
    var digits := DigitsOf(text);
    var z := |text| - n;
    hide Significant;
    assert digits == Zeros(z) + digits[z..] by {
      forall k | 0 <= k < z ensures digits[k] == 0 { assert text[k] == '0'; }
    }
    hide DigitsOf;
    LeadingZeros(digits[z..], z, 10);
    NumberBound(digits[z..], 10);
    if n > 0 { LeadingDigit(digits[z..], 10); }
  }

  lemma ScaledOrder(number: nat, p: nat, limit: real, t: real, scaled: real)
    requires t > 0.0 && p as real == limit && scaled == limit * t
    ensures number < p <==> number as real * t < scaled
  {
    SameOrder(number as real, limit, t);
    CastOrder(number, p);
  }

  lemma CastOrder(a: nat, b: nat)
    ensures a < b <==> a as real < b as real
  {
    if b <= a { assert b as real <= a as real; }
  }

  lemma NoSize(d: Decimal)
    requires Number(DigitsOf(d.ip + d.fp), 10) == 0
    ensures d.Size() == 0.0
  {
    hide Tens;
    hide Number;
  }

  lemma ScaledBetween(number: nat, n: nat, e: int, before: int, size: real)
    requires n > 0 && Pow(10, n - 1) <= number < Pow(10, n) && before == n + e && size == number as real * Tens(e)
    ensures Tens(before - 1) <= size < Tens(before)
  {
    hide *;
    TensOfNat(n);
    TensOfNat(n - 1);
    TensAdds(n, e);
    TensAdds(n - 1, e);
    ScaledOrder(number, Pow(10, n), Tens(n), Tens(e), Tens(n + e));
    ScaledOrder(number, Pow(10, n - 1), Tens(n - 1), Tens(e), Tens(n - 1 + e));
  }

  lemma SizeIs(d: Decimal)
    ensures d.Size() == Number(DigitsOf(d.ip + d.fp), 10) as real * Tens(d.exponent - |d.fp|)
  {
    hide Tens;
    hide Number;
    hide DigitsOf;
  }

  lemma SizeOfDigits(d: Decimal, n: nat, before: int)
    requires n > 0 && Pow(10, n - 1) <= Number(DigitsOf(d.ip + d.fp), 10) < Pow(10, n) && before == n - |d.fp| + d.exponent
    ensures Tens(before - 1) <= d.Size() < Tens(before)
  {
    hide *;
    SizeIs(d);
    ScaledBetween(Number(DigitsOf(d.ip + d.fp), 10), n, d.exponent - |d.fp|, before, d.Size());
  }

  /** The place of the first significant digit bounds the number on both sides. */
  lemma SizeBetween(d: Decimal)
    requires AllDigits(d.ip + d.fp)
    ensures var n := Significant(d.ip + d.fp);
            var before := n - |d.fp| + d.exponent;
            if n == 0 then d.Size() == 0.0 else Tens(before - 1) <= d.Size() < Tens(before)
  {
    hide *;
    var n := Significant(d.ip + d.fp);
    SignificantNumber(d.ip + d.fp);
    if n > 0 { SizeOfDigits(d, n, n - |d.fp| + d.exponent); } else { NoSize(d); }
  }

  lemma MagnitudeBetween(kept: Digits, weight: int)
    requires Below(kept, NBASE) && kept != [] && kept[0] > 0
    ensures Tens(4 * weight) <= Magnitude(kept, weight) < Tens(4 * (weight + 1))
  {
    hide *;
    MagnitudeBound(kept, weight);
    MagnitudeAtLeastZero(kept[1..], weight - 1);
    FirstOfMagnitude(kept, weight);
    TimesAtLeast(kept[0], Tens(4 * weight));
  }

  lemma FirstOfMagnitude(kept: Digits, weight: int)
    requires kept != []
    ensures Magnitude(kept, weight) == kept[0] as real * Tens(4 * weight) + Magnitude(kept[1..], weight - 1)
  {
    hide Tens;
  }

  lemma TimesAtLeast(x: nat, t: real)
    requires x > 0 && t > 0.0
    ensures x as real * t >= t
  {}

  lemma {:induction false} MagnitudeAtLeastZero(kept: Digits, weight: int)
    ensures Magnitude(kept, weight) >= 0.0
  {
    hide Tens;
    if kept != [] { MagnitudeAtLeastZero(kept[1..], weight - 1); }
  }

  lemma TensAtLeastOne(n: nat)
    ensures Tens(n) >= 1.0
  {
    TensOfNat(n);
    PowPositive(10, n);
    hide *;
  }

  lemma TensGrows(a: int, b: int)
    requires Tens(a) < Tens(b)
    ensures a < b
  {
    hide *;
    if b <= a {
      TensAtLeastOne(a - b);
      TensAdds(a - b, b);
      ProductAtLeast(Tens(a - b), Tens(b), Tens(a));
    }
  }

  lemma ProductAtLeast(x: real, t: real, product: real)
    requires x >= 1.0 && t > 0.0 && product == x * t
    ensures product >= t
  {
    SameOrder(x, 1.0, t);
  }

  /** The room of a number without zeros in front is told by its decimal digits. */
  lemma RoomIsPrintRoom(kept: Digits, weight: int, d: Decimal)
    requires Below(kept, NBASE) && (if kept == [] then weight == 0 else kept[0] > 0)
    requires AllDigits(d.ip + d.fp) && Magnitude(kept, weight) == d.Size()
    ensures IntegerRoom(weight) == PrintRoom(d)
  {
    hide Significant;
    hide Magnitude;
    hide Tens;
    hide Decimal.Size;
    hide Below;
    SizeBetween(d);
    NoDigitsIsZero(weight);
    if kept != [] { MagnitudeBetween(kept, weight); }
    var n := Significant(d.ip + d.fp);
    var before := n - |d.fp| + d.exponent;
    if kept != [] && n > 0 {
      TensGrows(4 * weight, before);
      TensGrows(before - 1, 4 * (weight + 1));
    }
  }

  /** Rounding to its own scale leaves a number the room it had. */
  lemma RoomAfterPrint(before: Digits, weightBefore: int, kept: Digits, weight: int, d: Decimal)
    requires Below(before, NBASE) && (if before == [] then weightBefore == 0 else before[0] > 0)
    requires Below(kept, NBASE) && (weight == weightBefore || if kept == [] then weight == 0 else kept[0] > 0)
    requires AllDigits(d.ip + d.fp) && Magnitude(before, weightBefore) == d.Size() == Magnitude(kept, weight)
    ensures IntegerRoom(weight) == PrintRoom(d)
  {
    if weight == weightBefore { RoomIsPrintRoom(before, weightBefore, d); } else { RoomIsPrintRoom(kept, weight, d); }
    hide *;
  }

  /** Prints a variable to its own scale. */
  method Print(out: array<char>, v: NumericVar, ghost d: Decimal, ghost n: nat) returns (printed: bool, ghost ip: string, ghost fp: string)
    requires AllDigits(d.ip + d.fp) && v.NoZeroInFront() && v.Valid() && v.IsNormal() && v.dscale == d.Scale()
    requires Magnitude(v.Kept(), v.weight) == d.Size() == Multiple(n, d.Scale())
    requires d.exponent == 0 ==> n == Number(DigitsOf(d.ip + d.fp), 10)
    requires v.sign == Neg <==> d.negative && v.Kept() != []
    modifies v, v.buf, out
    ensures printed <==> out.Length > PrintRoom(d) + d.Scale() + 6
    ensures printed ==> IsPrintOf(d, n, v.sign == Neg, ip, fp) && Holds(out[..], TextOf(v.sign == Neg, ip, fp))
  {
    hide *;
    EmptyIsNothing(v, d);
    NothingHasNoSize(d, n);
    ReadHasRoom(v, d, n);
    ScaleIs(d);
    MultipleIsNearest(d.Size(), d.Scale(), n);
    FrontIs(v);
    KeptIsBelow(v);
    FirstKept(v);
    ghost var before, weightBefore := v.Kept(), v.weight;
    ghost var m;
    printed, ip, fp, m := Num2Str(out, v, v.dscale);
    NearestIsUnique(d.Size(), d.Scale(), m, n);
    FrontIs(v);
    KeptIsBelow(v);
    FirstKept(v);
    RoomAfterPrint(before, weightBefore, v.Kept(), v.weight, d);
    PrintIs(d, n, v.sign == Neg, ip, fp);
  }

  lemma FirstKept(v: NumericVar)
    requires v.Valid()
    ensures v.Kept() == [] <==> v.ndigits == 0
    ensures v.Kept() != [] ==> v.Kept()[0] == v.buf[v.first]
  {}

  lemma ScaleIs(d: Decimal)
    ensures AtLeastZero(d.Scale()) == d.Scale()
  {}

  lemma EmptyIsNothing(v: NumericVar, d: Decimal)
    requires v.Valid() && Magnitude(v.Kept(), v.weight) == d.Size()
    ensures v.Kept() == [] ==> d.Size() == 0.0
  {
    NoDigitsIsZero(v.weight);
    hide Magnitude;
    hide Scaled;
  }

  lemma ExponentKeepsDigits(negative: bool, ip: string, fp: string, rest: string)
    requires ReadExponent(negative, ip, fp, rest).Some?
    ensures var d := ReadExponent(negative, ip, fp, rest).value; d.ip == ip && d.fp == fp
  {
    hide Strtol;
    hide Spaces;
  }

  lemma MantissaIsDigits(negative: bool, t: string)
    requires ReadMantissa(negative, t).Some?
    ensures var d := ReadMantissa(negative, t).value; AllDigits(d.ip) && AllDigits(d.fp)
  {
    hide ReadExponent;
    var n := Run(t);
    if n < |t| && t[n] == '.' {
      var behind := t[n + 1..];
      var f := Run(behind);
      hide Run;
      hide AllDigits;
      ExponentKeepsDigits(negative, t[..n], behind[..f], behind[f..]);
    } else {
      hide Run;
      ExponentKeepsDigits(negative, t[..n], "", t[n..]);
    }
  }

  lemma ReadIsDigits(str: string)
    requires ReadNumeric(str).Some?
    ensures var d := ReadNumeric(str).value; AllDigits(d.ip + d.fp)
  {
    hide Spaces;
    hide ReadMantissa;
    var t := str[Spaces(str)..];
    if t != "" && (t[0] == '-' || t[0] == '+') { MantissaIsDigits(t[0] == '-', t[1..]); } else { MantissaIsDigits(false, t); }
  }

  lemma SignificantIs(text: string, n: nat)
    requires n <= |text| && (n > 0 ==> text[|text| - n] != '0') && forall k :: 0 <= k < |text| - n ==> text[k] == '0'
    ensures Significant(text) == n
  {}

  /** What `Num2Str` asks of the buffer for a canonical text: whole groups before the point, or a single zero. */
  function CanonicalRoom(ip: string, fp: string): nat {
    if ip != "" && ip[0] != '0' then (|ip| + 3) / 4 * 4 else if Number(DigitsOf(ip + fp), 10) == 0 then 4 else 1
  }

  lemma RoomOfCanonical(str: string, n: bool, i: string, f: string)
    requires IsCanonical(str, n, i, f)
    ensures ReadNumeric(str) == Some(Decimal(n, i, f, 0)) && PrintRoom(Decimal(n, i, f, 0)) == CanonicalRoom(i, f)
  {
    NumeralIsRead(n, i, f);
    SignificantNumber(i + f);
    hide ReadNumeric;
    hide Number;
    hide DigitsOf;
    PowPositive(10, Significant(i + f));
    hide Significant;
    assert (i + f)[0] == i[0];
    if i[0] != '0' {
      SignificantIs(i + f, |i| + |f|);
    } else if Significant(i + f) > 0 {
      PowPositive(10, Significant(i + f) - 1);
    }
  }

  /**
   A text is read and its number printed. What comes out has the value of what went in; it comes out
   exactly if the buffer is long enough for its digits. A canonical text comes back as it was.
   */
  method ReadThenPrint(str: string, size: nat)
    returns (read: bool, printed: bool, out: array<char>, ghost ip: string, ghost fp: string, ghost negative: bool)
    ensures read <==> ReadNumeric(str).Some?
    ensures read ==> (printed <==> size > PrintRoom(ReadNumeric(str).value) + ReadNumeric(str).value.Scale() + 6)
    ensures read && printed ==>
              && IsNumeral(ip, fp) && Holds(out[..], TextOf(negative, ip, fp))
              && Decimal(negative, ip, fp, 0).Value() == ReadNumeric(str).value.Value()
              && |fp| == ReadNumeric(str).value.Scale()
    ensures forall n, i, f :: IsCanonical(str, n, i, f) ==>
              && read && (printed <==> size > CanonicalRoom(i, f) + |f| + 6)
              && (printed ==> Holds(out[..], str))
  {
    hide *;
    var v := new NumericVar();
    read := Str2Num(v, str);
    printed, ip, fp, negative := false, "", "", false;
    out := new char[size];
    CanonicalsFit(str, size);
    if !read { return; }
    ghost var d := ReadNumeric(str).value;
    ReadIsDigits(str);
    SizeOfRead(v, d);
    ghost var n := ReadIsMultiple(d);
    printed, ip, fp := Print(out, v, d, n);
    if !printed { return; }
    negative := v.sign == Neg;
    PrintIs(d, n, negative, ip, fp);
    CanonicalComesBack(str, out[..], n, negative, ip, fp);
  }

  lemma CanonicalsFit(str: string, size: nat)
    ensures forall n, i, f :: IsCanonical(str, n, i, f) ==>
              && ReadNumeric(str).Some?
              && (size > PrintRoom(ReadNumeric(str).value) + ReadNumeric(str).value.Scale() + 6
                  <==> size > CanonicalRoom(i, f) + |f| + 6)
  {
    hide *;
    forall n, i, f | IsCanonical(str, n, i, f)
      ensures && ReadNumeric(str).Some?
              && (size > PrintRoom(ReadNumeric(str).value) + ReadNumeric(str).value.Scale() + 6
                  <==> size > CanonicalRoom(i, f) + |f| + 6)
    {
      RoomOfCanonical(str, n, i, f);
      ScaleOf(n, i, f);
    }
  }

  lemma ScaleOf(n: bool, i: string, f: string)
    ensures Decimal(n, i, f, 0).Scale() == |f|
  {}
}
